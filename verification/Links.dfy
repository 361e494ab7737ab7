// What following links means, without walking: the first link on a path is
// replaced by its target, until no link is left. Resolution is proved to do this.
module Links {
  import opened Errors
  import opened FileTree
  import opened Paths

  // The components lead from `at` through directories only, read lexically.
  predicate ThroughDirs(t: Inode, at: Path, xs: seq<string>)
    requires AllPlain(at) && SlashFree(xs)
  {
    forall k :: 0 <= k <= |xs| ==> IsDir(t, Normalize(at, xs[..k]))
  }

  // They lead through directories to something that is there and is no link.
  predicate Straight(t: Inode, at: Path, xs: seq<string>)
    requires AllPlain(at) && SlashFree(xs)
  {
    && (forall k :: 0 <= k < |xs| ==> IsDir(t, Normalize(at, xs[..k])))
    && Exists(t, Normalize(at, xs)) && !IsLink(t, Normalize(at, xs))
  }

  // The k-th component is the first link on the path x.
  predicate FirstLink(t: Inode, x: seq<string>, k: nat)
    requires SlashFree(x)
  {
    && k < |x| && Plain(x[k]) && ThroughDirs(t, [], x[..k])
    && IsLink(t, Normalize([], x[..k]) + [x[k]])
  }

  // The path with that link replaced by its target, which starts at the root if
  // it is absolute and at the link's own directory if it is not.
  function Replaced(t: Inode, x: seq<string>, k: nat): (y: seq<string>)
    requires SlashFree(x) && FirstLink(t, x, k)
    ensures SlashFree(y)
  {
    var target := Lookup(t, Normalize([], x[..k]) + [x[k]]).value.target;
    (if target != "" && target[0] == '/' then [] else x[..k]) + Split(target) + x[k + 1..]
  }

  // By replacing `links` links the path leads to q.
  ghost predicate LeadsTo(t: Inode, x: seq<string>, links: nat, q: Path)
    decreases links
  {
    && SlashFree(x)
    && if links == 0 then Straight(t, [], x) && q == Normalize([], x)
       else exists k :: FirstLink(t, x, k) && LeadsTo(t, Replaced(t, x, k), links - 1, q)
  }

  // ---- Walking straight on ----

  // Where one component leads if it is no link.
  function Onto(at: Path, c: string): (next: Path)
    requires AllPlain(at) && '/' !in c
    ensures AllPlain(next)
  {
    if c == "" || c == "." then at else if c == ".." then Parent(at) else at + [c]
  }

  lemma FirstOf(at: Path, xs: seq<string>)
    requires AllPlain(at) && SlashFree(xs) && xs != []
    ensures Normalize(at, xs[..0]) == at
    ensures SlashFree(xs[1..])
    ensures var next := Onto(at, xs[0]);
            && Normalize(at, xs[..1]) == next
            && forall k :: 0 <= k <= |xs[1..]| ==> Normalize(next, xs[1..][..k]) == Normalize(at, xs[..k + 1])
  {
    forall k | 0 <= k <= |xs[1..]|
      ensures xs[..k + 1] == [xs[0]] + xs[1..][..k]
    {
    }
    assert xs[..0] == [] && xs[..1] == [xs[0]] && xs[..1][1..] == [];
    forall k | 0 <= k <= |xs[1..]|
      ensures xs[..k + 1][1..] == xs[1..][..k]
    {
    }
  }

  lemma {:induction false} WalkThrough(t: Inode, at: Path, xs: seq<string>, ys: seq<string>, links: nat)
    requires AllPlain(at) && SlashFree(xs) && ThroughDirs(t, at, xs)
    ensures Walk(t, at, xs + ys, links) == Walk(t, Normalize(at, xs), ys, links)
    decreases |xs|
  {
    if xs == [] {
      assert xs + ys == ys;
    } else {
      FirstOf(at, xs);
      var next := Onto(at, xs[0]);
      assert (xs + ys)[1..] == xs[1..] + ys && (xs + ys)[0] == xs[0];
      assert IsDir(t, next);
      WalkThrough(t, next, xs[1..], ys, links);
      assert xs[1..][..|xs[1..]|] == xs[1..] && xs[..|xs|] == xs;
    }
  }

  lemma {:induction false} WalkStraight(t: Inode, at: Path, xs: seq<string>, links: nat)
    requires AllPlain(at) && SlashFree(xs) && Straight(t, at, xs)
    ensures Walk(t, at, xs, links) == Found(Normalize(at, xs), links)
    decreases |xs|
  {
    if xs != [] {
      FirstOf(at, xs);
      var next := Onto(at, xs[0]);
      assert xs[1..][..|xs[1..]|] == xs[1..] && xs[..|xs|] == xs;
      if |xs| > 1 {
        assert IsDir(t, next);
      } else {
        ParentIsDir(t, at);
      }
      if IsDir(t, next) {
        WalkStraight(t, next, xs[1..], links);
      }
    }
  }

  // Walking up to the first link is walking the path in which it is replaced.
  lemma WalkFirstLink(t: Inode, x: seq<string>, k: nat, links: nat)
    requires SlashFree(x) && FirstLink(t, x, k)
    ensures Walk(t, [], x, links) == if links == 0 then TooManyLinks else Walk(t, [], Replaced(t, x, k), links - 1)
  {
    var front, rest := x[..k], x[k + 1..];
    var at := Normalize([], front);
    var target := Lookup(t, at + [x[k]]).value.target;
    assert x == front + ([x[k]] + rest);
    WalkThrough(t, [], front, [x[k]] + rest, links);
    assert ([x[k]] + rest)[1..] == rest;
    if links > 0 {
      WalkReplaced(t, front, target, rest, links - 1);
    }
  }

  lemma WalkReplaced(t: Inode, front: seq<string>, target: string, rest: seq<string>, links: nat)
    requires SlashFree(front) && SlashFree(rest) && ThroughDirs(t, [], front)
    ensures Walk(t, if IsAbs(target) then [] else Normalize([], front), Split(target) + rest, links)
            == Walk(t, [], (if IsAbs(target) then [] else front) + Split(target) + rest, links)
  {
    if IsAbs(target) {
      assert [] + Split(target) + rest == Split(target) + rest;
    } else {
      WalkThrough(t, [], front, Split(target) + rest, links);
      assert front + Split(target) + rest == front + (Split(target) + rest);
    }
  }

  // A path that leads somewhere is straight or has a first link.
  lemma {:induction false} StraightOrLink(t: Inode, x: seq<string>, i: nat, links: nat)
    requires t.Dir? && SlashFree(x) && i <= |x| && ThroughDirs(t, [], x[..i])
    requires Walk(t, [], x, links).Found?
    ensures Straight(t, [], x) || exists k :: FirstLink(t, x, k)
    decreases |x| - i
  {
    var at := Normalize([], x[..i]);
    ThroughSoFar(t, x, i);
    if i == |x| {
      AllOf(x);
    } else {
      assert x == x[..i] + x[i..] && x[i..][1..] == x[i + 1..];
      WalkThrough(t, [], x[..i], x[i..], links);
      OneFurther(x, i);
      if Plain(x[i]) && IsLink(t, at + [x[i]]) {
        assert FirstLink(t, x, i);
      } else if IsDir(t, Onto(at, x[i])) {
        FurtherThrough(t, x, i);
        StraightOrLink(t, x, i + 1, links);
      } else {
        ParentIsDir(t, at);
        AllOf(x);
      }
    }
  }

  lemma ThroughSoFar(t: Inode, x: seq<string>, i: nat)
    requires SlashFree(x) && i <= |x| && ThroughDirs(t, [], x[..i])
    ensures IsDir(t, Normalize([], x[..i]))
    ensures forall k :: 0 <= k <= i ==> IsDir(t, Normalize([], x[..k]))
  {
    forall k | 0 <= k <= i
      ensures IsDir(t, Normalize([], x[..k]))
    {
      assert x[..i][..k] == x[..k];
    }
  }

  lemma AllOf(x: seq<string>)
    ensures x[..|x|] == x
  {
  }

  lemma OneFurther(x: seq<string>, i: nat)
    requires SlashFree(x) && i < |x|
    ensures SlashFree(x[..i]) && SlashFree(x[..i + 1])
    ensures Normalize([], x[..i + 1]) == Onto(Normalize([], x[..i]), x[i])
  {
    assert x[..i + 1] == x[..i] + [x[i]];
    NormalizeConcat([], x[..i], [x[i]]);
    assert [x[i]][1..] == [];
  }

  lemma FurtherThrough(t: Inode, x: seq<string>, i: nat)
    requires SlashFree(x) && i < |x| && ThroughDirs(t, [], x[..i]) && IsDir(t, Onto(Normalize([], x[..i]), x[i]))
    ensures ThroughDirs(t, [], x[..i + 1])
  {
    OneFurther(x, i);
    var y := x[..i + 1];
    forall k | 0 <= k <= |y|
      ensures IsDir(t, Normalize([], y[..k]))
    {
      if k <= i {
        assert y[..k] == x[..i][..k];
      } else {
        AllOf(y);
      }
    }
  }

  // Resolution follows links as they are meant to be followed: it ends at q,
  // having followed that many links, exactly when the path leads to q by
  // replacing that many.
  lemma {:induction false} ResolvesExactly(t: Inode, x: seq<string>, links: nat, q: Path, left: nat)
    requires t.Dir? && SlashFree(x) && left <= links
    ensures Walk(t, [], x, links) == Found(q, left) <==> LeadsTo(t, x, links - left, q)
    decreases links
  {
    if Straight(t, [], x) {
      WalkStraight(t, [], x, links);
      forall k: nat
        ensures !FirstLink(t, x, k)
      {
        StraightHasNoLink(t, x, k);
      }
    } else if k :| FirstLink(t, x, k) {
      LeadsByFirstLink(t, x, k, links - left, q);
      WalkFirstLink(t, x, k, links);
      if left < links {
        ResolvesExactly(t, Replaced(t, x, k), links - 1, q, left);
      } else if links > 0 {
        WalkFindsCanonical(t, [], Replaced(t, x, k), links - 1);
      }
    } else if Walk(t, [], x, links).Found? {
      AllOf(x[..0]);
      StraightOrLink(t, x, 0, links);
    }
  }

  lemma LeadsByFirstLink(t: Inode, x: seq<string>, k: nat, n: nat, q: Path)
    requires SlashFree(x) && FirstLink(t, x, k) && !Straight(t, [], x)
    ensures LeadsTo(t, x, n, q) <==> n > 0 && LeadsTo(t, Replaced(t, x, k), n - 1, q)
  {
    OneFirstLink(t, x, k);
  }

  lemma StraightHasNoLink(t: Inode, x: seq<string>, k: nat)
    requires SlashFree(x) && Straight(t, [], x)
    ensures !FirstLink(t, x, k)
  {
    if k < |x| {
      OneFurther(x, k);
      AllOf(x);
    }
  }

  lemma NoneBefore(t: Inode, x: seq<string>, j: nat, k: nat)
    requires SlashFree(x) && FirstLink(t, x, k) && j < k
    ensures !FirstLink(t, x, j)
  {
    OneFurther(x, j);
    assert x[..k][..j + 1] == x[..j + 1];
  }

  lemma OneFirstLink(t: Inode, x: seq<string>, k: nat)
    requires SlashFree(x) && FirstLink(t, x, k)
    ensures forall j: nat :: FirstLink(t, x, j) ==> j == k
  {
    forall j: nat | FirstLink(t, x, j)
      ensures j == k
    {
      if j < k {
        NoneBefore(t, x, j, k);
      } else if k < j {
        NoneBefore(t, x, k, j);
      }
    }
  }

  // ---- Straight targets ----

  lemma PrefixIsDir(t: Inode, q: Path, k: nat)
    requires Canonical(t, q) && k < |q|
    ensures IsDir(t, q[..k])
  {
    AncestorIsDir(t, q, k);
  }

  // An absolute path without links.
  lemma StraightRender(t: Inode, q: Path)
    requires t.Dir? && Canonical(t, q)
    ensures Straight(t, [], Split(Render(q)))
  {
    SplitRender(q);
    NormalizeRender(q);
    var xs := Split(Render(q));
    forall k | 0 <= k < |xs|
      ensures IsDir(t, Normalize([], xs[..k]))
    {
      SlashThenNames(q, k);
      if 0 < k <= |q| {
        PrefixIsDir(t, q, k - 1);
      }
    }
  }

  lemma SlashThenNames(q: Path, k: nat)
    requires AllPlain(q)
    requires var xs := [""] + (if q == [] then [""] else q); k < |xs|
    ensures var xs := [""] + (if q == [] then [""] else q);
            SlashFree(xs[..k]) && Normalize([], xs[..k]) == if k == 0 then [] else q[..k - 1]
  {
    var xs := [""] + (if q == [] then [""] else q);
    if k > 0 {
      assert xs[..k] == [""] + xs[1..][..k - 1] && xs[..k][1..] == xs[1..][..k - 1];
      if q != [] {
        assert xs[1..] == q;
        NormalizePlain([], q[..k - 1]);
        assert [] + q[..k - 1] == q[..k - 1];
      }
    }
  }

  // Some levels up and then down again.
  lemma StraightUpDown(t: Inode, p: Path, ups: nat, names: Path)
    requires AllPlain(p) && AllPlain(names) && ups <= |p| && IsDir(t, p)
    requires Canonical(t, p[..|p| - ups] + names)
    ensures SlashFree(Dots(ups) + names) && Straight(t, p, Dots(ups) + names)
    ensures Normalize(p, Dots(ups) + names) == p[..|p| - ups] + names
  {
    var xs, base := Dots(ups) + names, p[..|p| - ups];
    NormalizeUpDown(p, ups, names);
    forall k | 0 <= k < |xs|
      ensures IsDir(t, Normalize(p, xs[..k]))
    {
      if k <= ups {
        assert xs[..k] == Dots(k) + [];
        NormalizeUpDown(p, k, []);
        if k > 0 {
          AncestorIsDir(t, p, |p| - k);
        }
        assert p[..|p| - k] + [] == p[..|p| - k];
      } else {
        assert xs[..k] == Dots(ups) + names[..k - ups];
        NormalizeUpDown(p, ups, names[..k - ups]);
        PrefixIsDir(t, base + names, |base| + (k - ups));
        assert (base + names)[..|base| + (k - ups)] == base + names[..k - ups];
      }
    }
  }

  lemma UnsplitIsRelative(cs: seq<string>)
    requires cs != [] && SlashFree(cs) && cs[0] != ""
    ensures Unsplit(cs) != "" && Unsplit(cs)[0] != '/'
  {
    assert Unsplit(cs)[0] == cs[0][0];
  }
}
