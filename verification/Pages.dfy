// The links pages are built from: child links and breadcrumbs.
module Pages {
  import opened Paths
  import opened FileTree
  import opened Errors
  import opened Jail

  const BREADCRUMB_ROOT_LABEL := "Home"

  // ---- ChildPath ----

  // The link to an entry of the directory being shown.
  function ChildPath(current: string, name: string): string {
    if current == DEFAULT_BROWSE_PATH || current == "" then name else Join(current, name)
  }

  // The special case changes nothing.
  lemma ChildPathIsJoin(current: string, name: string)
    requires Plain(name)
    ensures ChildPath(current, name) == Join(current, name)
  {
    SplitUnsplit([name]);
    CleanRelativePlain(0, [], [name]);
    assert [] + [name] == [name] && Dots(0) + [name] == [name];
    if current == DEFAULT_BROWSE_PATH {
      SplitConcat(".", name);
      assert Split(".") == ["."] by { SplitUnsplit(["."]); }
      assert (["."] + [name])[1..] == [name];
      assert CleanRelative(0, [], ["."] + [name]) == CleanRelative(0, [], [name]);
    }
  }

  // A listing's link to an entry that is not a symbolic link leads to that very
  // entry, however the listed directory was reached.
  lemma LinkIsFaithful(t: Inode, root: Path, current: string, name: string)
    requires t.Dir? && AllPlain(root) && SafeTarget(t, root, current).Ok? && Plain(name) && '\0' !in name
    requires IsDir(t, SafeTarget(t, root, current).value) && ResolvedRoot(t, root) != []
    requires |ChildPath(current, name)| <= MAX_PATH_LENGTH
    requires !IsLink(t, SafeTarget(t, root, current).value + [name])
    ensures SafeTarget(t, root, ChildPath(current, name)) == Ok(SafeTarget(t, root, current).value + [name])
  {
    ChildPathIsJoin(current, name);
    ChildTarget(t, root, current, name);
  }

  // Following links through listing after listing.
  function FollowLinks(current: string, names: Path): string
    decreases |names|
  {
    if names == [] then current else FollowLinks(ChildPath(current, names[0]), names[1..])
  }

  // Every path on the way is short enough for the jail.
  predicate ShortLinks(current: string, names: Path)
    decreases |names|
  {
    names == [] || (|ChildPath(current, names[0])| <= MAX_PATH_LENGTH
                    && ShortLinks(ChildPath(current, names[0]), names[1..]))
  }

  lemma OneLevelDown(t: Inode, p: Path, names: Path)
    requires names != [] && IsDir(t, p + names)
    ensures IsDir(t, p) && IsDir(t, p + [names[0]]) && p + names == (p + [names[0]]) + names[1..]
  {
    var all := p + names;
    assert all[..|p|] == p && all[..|p| + 1] == p + [names[0]];
    AncestorIsDir(t, all, |p|);
    if |names| > 1 {
      AncestorIsDir(t, all, |p| + 1);
    } else {
      assert all == p + [names[0]];
    }
  }

  // Clicking down through directories arrives where the names lead.
  lemma {:induction false} FollowedLinksArrive(t: Inode, root: Path, current: string, names: Path)
    requires t.Dir? && AllPlain(root) && SafeTarget(t, root, current).Ok? && AllPlain(names) && NulFree(names)
    requires ResolvedRoot(t, root) != [] && ShortLinks(current, names)
    requires IsDir(t, SafeTarget(t, root, current).value + names)
    ensures SafeTarget(t, root, FollowLinks(current, names)) == Ok(SafeTarget(t, root, current).value + names)
    decreases |names|
  {
    var p := SafeTarget(t, root, current).value;
    if names == [] {
      assert p + names == p;
    } else {
      OneLevelDown(t, p, names);
      LinkIsFaithful(t, root, current, names[0]);
      FollowedLinksArrive(t, root, ChildPath(current, names[0]), names[1..]);
    }
  }

  // ---- Breadcrumbs ----

  datatype Segment = Segment(caption: string, path: string)

  const HOME := Segment(BREADCRUMB_ROOT_LABEL, DEFAULT_BROWSE_PATH)

  // The segments for the first n components; empty components have none.
  function Crumbs(parts: seq<string>, n: nat): (b: seq<Segment>)
    requires n <= |parts|
    ensures b != [] && b[0] == HOME
  {
    if n == 0 then [HOME]
    else if parts[n - 1] == "" then Crumbs(parts, n - 1)
    else Crumbs(parts, n - 1) + [Segment(parts[n - 1], Unsplit(parts[..n]))]
  }

  function Breadcrumbs(relPath: string): (b: seq<Segment>)
    ensures b != [] && b[0] == HOME
  {
    var cleaned := Clean(relPath);
    if cleaned == DEFAULT_BROWSE_PATH || cleaned == "" then [HOME]
    else Crumbs(Split(cleaned), |Split(cleaned)|)
  }

  lemma {:induction false} CrumbsAt(parts: seq<string>, n: nat)
    requires n <= |parts| && forall i :: 0 <= i < n ==> parts[i] != ""
    ensures |Crumbs(parts, n)| == n + 1 && Crumbs(parts, n)[0] == HOME
    ensures forall i :: 1 <= i <= n ==> Crumbs(parts, n)[i] == Segment(parts[i - 1], Unsplit(parts[..i]))
  {
    if n > 0 {
      CrumbsAt(parts, n - 1);
    }
  }

  // A shorter part of a cleaned relative path is cleaned too.
  lemma CleanPrefix(ups: nat, names: Path, n: nat)
    requires AllPlain(names) && 0 < n <= ups + |names|
    ensures Clean(Unsplit((Dots(ups) + names)[..n])) == Unsplit((Dots(ups) + names)[..n])
  {
    var u, m := if n <= ups then n else ups, if n <= ups then [] else names[..n - ups];
    var cs := Dots(u) + m;
    assert (Dots(ups) + names)[..n] == cs;
    CleanRelativeDots(u, m);
    SplitUnsplit(cs);
    assert cs[0] != "" && cs[0][0] != '/';
    assert Unsplit(cs)[0] == cs[0][0];
  }

  // The components of a cleaned path; a leading slash is none.
  function NamesOf(cleaned: string): seq<string> {
    if cleaned == "." || cleaned == "/" then []
    else Split(if cleaned != "" && cleaned[0] == '/' then cleaned[1..] else cleaned)
  }

  // After Home there is one segment for each name, labelled with it.
  predicate Labelled(segments: seq<Segment>, names: seq<string>) {
    && |segments| == |names| + 1 && segments[0] == Segment("Home", ".")
    && forall i :: 1 <= i < |segments| ==> segments[i].caption == names[i - 1]
  }

  lemma BreadcrumbsLabelled(relPath: string)
    ensures Labelled(Breadcrumbs(relPath), NamesOf(Clean(relPath)))
  {
    if IsAbs(relPath) {
      var p := Normalize([], Split(relPath));
      AbsoluteNames(p);
      AbsoluteLabelled(p);
    } else {
      var (ups, names) := CleanRelative(0, [], Split(relPath));
      var parts := Dots(ups) + names;
      if parts != [] {
        RelativeNames(parts);
        CrumbsAt(parts, |parts|);
      }
    }
  }

  lemma RelativeNames(parts: seq<string>)
    requires parts != [] && SlashFree(parts) && forall i :: 0 <= i < |parts| ==> parts[i] != "" && parts[i] != "."
    ensures var s := Unsplit(parts);
            s != "" && s != "." && s != "/" && Split(s) == parts && NamesOf(s) == parts
  {
    SplitUnsplit(parts);
    assert Unsplit(parts)[0] == parts[0][0];
    SplitSlashFree(".");
  }

  lemma AbsoluteNames(p: Path)
    requires AllPlain(p)
    ensures Render(p) != "" && Render(p) != "." && NamesOf(Render(p)) == p
    ensures Split(Render(p)) == [""] + (if p == [] then [""] else p)
  {
    SplitRender(p);
    assert Render(p)[1..] == Unsplit(p) && Render(p)[0] == '/';
    if p != [] {
      SplitUnsplit(p);
      UnsplitHasNames(p);
    }
  }

  lemma UnsplitHasNames(p: Path)
    requires AllPlain(p) && p != []
    ensures Unsplit(p) != "" && Render(p) != "/"
  {
    assert Unsplit(p)[0] == p[0][0];
    assert Render(p)[1..] == Unsplit(p);
  }

  lemma AbsoluteLabelled(p: Path)
    requires AllPlain(p)
    ensures var parts := [""] + (if p == [] then [""] else p);
            Labelled(Crumbs(parts, |parts|), p)
  {
    if p == [] {
      assert [""] + [""] == ["", ""];
      assert Crumbs(["", ""], 2) == Crumbs(["", ""], 1) == [HOME];
    } else {
      CrumbsAfterSlash(p, |p| + 1);
    }
  }

  lemma {:induction false} CrumbsAfterSlash(p: Path, n: nat)
    requires AllPlain(p) && 1 <= n <= |p| + 1
    ensures var b := Crumbs([""] + p, n);
            |b| == n && b[0] == HOME && forall i :: 1 <= i < n ==> b[i].caption == p[i - 1]
  {
    var parts := [""] + p;
    if n == 1 {
      assert Crumbs(parts, 0) == [HOME];
    } else {
      CrumbsAfterSlash(p, n - 1);
      assert parts[n - 1] == p[n - 2];
    }
  }

  // Go's BuildBreadcrumbs
  method BuildBreadcrumbs(relPath: string) returns (segments: seq<Segment>)
    ensures segments == Breadcrumbs(relPath)
    ensures Labelled(segments, NamesOf(Clean(relPath)))
  {
    BreadcrumbsLabelled(relPath);
    var cleaned := Clean(relPath);
    if cleaned == DEFAULT_BROWSE_PATH || cleaned == "" {
      return [HOME];
    }
    segments := AddSegments(Split(cleaned));
  }

  // Its loop over the components.
  method AddSegments(parts: seq<string>) returns (segments: seq<Segment>)
    ensures segments == Crumbs(parts, |parts|)
  {
    segments := [HOME];
    for i := 0 to |parts|
      invariant segments == Crumbs(parts, i)
    {
      if parts[i] == "" {
        continue;
      }
      segments := segments + [Segment(parts[i], Unsplit(parts[..i + 1]))];
    }
  }

  // Each segment's path is the child link from the segment before it.
  predicate Linked(segments: seq<Segment>) {
    forall i :: 0 <= i < |segments| - 1 ==> segments[i + 1].path == ChildPath(segments[i].path, segments[i + 1].caption)
  }

  lemma NextCrumb(ups: nat, names: Path, i: nat)
    requires AllPlain(names) && 0 < i < ups + |names|
    ensures var parts := Dots(ups) + names;
            ChildPath(Unsplit(parts[..i]), parts[i]) == Unsplit(parts[..i + 1])
  {
    var parts := Dots(ups) + names;
    var path := Unsplit(parts[..i]);
    assert parts[0] == ".." || Plain(parts[0]);
    assert |parts[..i]| > 1 ==> path == parts[0] + "/" + Unsplit(parts[..i][1..]);
    UnsplitConcat(parts[..i], [parts[i]]);
    assert parts[..i] + [parts[i]] == parts[..i + 1];
    CleanPrefix(ups, names, i + 1);
  }

  // From Home, following the labels as child links gives every breadcrumb's path,
  // and the last one's is the cleaned path that was asked for.
  lemma {:induction false} BreadcrumbsFold(relPath: string)
    requires !IsAbs(relPath)
    ensures Linked(Breadcrumbs(relPath))
    ensures var b := Breadcrumbs(relPath); b[|b| - 1].path == Clean(relPath)
  {
    var (ups, names) := CleanRelative(0, [], Split(relPath));
    var parts := Dots(ups) + names;
    if parts != [] {
      CleanRelativeDots(ups, names);
      SplitUnsplit(parts);
      CrumbsLinked(ups, names);
    }
  }

  lemma CrumbsLinked(ups: nat, names: Path)
    requires AllPlain(names) && ups + |names| > 0
    ensures var parts := Dots(ups) + names;
            var b := Crumbs(parts, |parts|);
            Linked(b) && |b| == |parts| + 1 && b[|parts|].path == Unsplit(parts)
  {
    var parts := Dots(ups) + names;
    CrumbsAt(parts, |parts|);
    assert parts[..|parts|] == parts && parts[..1] == [parts[0]];
    var b := Crumbs(parts, |parts|);
    forall i | 0 <= i < |b| - 1
      ensures b[i + 1].path == ChildPath(b[i].path, b[i + 1].caption)
    {
      if i > 0 {
        NextCrumb(ups, names, i);
      }
    }
  }

  // An absolute path's breadcrumbs do not fold, unless it is "/".
  lemma {:induction false} BreadcrumbsFoldExactly(relPath: string)
    ensures Linked(Breadcrumbs(relPath)) <==> !IsAbs(relPath) || Clean(relPath) == "/"
  {
    if !IsAbs(relPath) {
      BreadcrumbsFold(relPath);
    } else {
      var p := Normalize([], Split(relPath));
      SplitRender(p);
      if p == [] {
        assert Clean(relPath) == "/";
        assert Crumbs(["", ""], 2) == Crumbs(["", ""], 1) == [HOME];
        assert Split("/") == ["", ""];
        assert Breadcrumbs(relPath) == [HOME];
      } else {
        FirstCrumb(p, |p| + 1);
        var b := Breadcrumbs(relPath);
        assert Plain(p[0]) && |Unsplit(p)| > 0;
        assert |Clean(relPath)| > 1;
        assert b[0 + 1].path != ChildPath(b[0].path, b[0 + 1].caption);
        assert !Linked(b);
      }
    }
  }

  // The first breadcrumb of an absolute path keeps the leading slash.
  lemma {:induction false} FirstCrumb(p: Path, n: nat)
    requires AllPlain(p) && 2 <= n <= |p| + 1
    ensures var b := Crumbs([""] + p, n);
            |b| >= 2 && b[0] == HOME && b[1] == Segment(p[0], "/" + p[0])
  {
    var parts := [""] + p;
    if n == 2 {
      assert parts[..2] == ["", p[0]] && ["", p[0]][1..] == [p[0]];
      assert Unsplit(parts[..2]) == "" + "/" + p[0] == "/" + p[0];
      assert parts[1] == p[0] && parts[0] == "";
      assert Crumbs(parts, 0) == [HOME];
      assert Crumbs(parts, 1) == [HOME];
    } else {
      FirstCrumb(p, n - 1);
      assert parts[n - 1] == p[n - 2];
    }
  }
}
