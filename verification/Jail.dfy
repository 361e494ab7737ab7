// The path jail: SafePath and the ancestor walk under it.
//
// SafePath is written on strings, as the source has it. Its specification
// SafeTarget is written on path components, and the theorems about the jail
// are about that specification.
module Jail {
  import opened Paths
  import opened FileTree
  import opened Errors
  import opened Links

  const MAX_PATH_LENGTH: nat := 4096

  // Where the server runs: the process working directory and the configured root.
  datatype Site = Site(cwd: string, rootDir: string) {
    predicate Valid() {
      IsAbs(cwd)
    }

    // The components of filepath.Abs(filepath.Clean(rootDir)).
    function Root(): (p: Path)
      ensures AllPlain(p)
    {
      var c := Clean(rootDir);
      Normalize([], Split(if IsAbs(c) then c else cwd + "/" + c))
    }
  }

  // How many leading components of the target do not end in "not exist".
  function Anchor(t: Inode, target: Path): (k: nat)
    requires t.Dir? && AllPlain(target)
    ensures k <= |target|
    decreases |target|
  {
    if Resolve(t, target) != NotExist || target == [] then |target| else Anchor(t, Parent(target))
  }

  lemma {:induction false} AnchorIsDeepest(t: Inode, target: Path)
    requires t.Dir? && AllPlain(target)
    ensures var k := Anchor(t, target);
            && Resolve(t, target[..k]) != NotExist
            && forall j :: k < j <= |target| ==> Resolve(t, target[..j]) == NotExist
    decreases |target|
  {
    assert target[..|target|] == target;
    if Resolve(t, target) == NotExist {
      var parent := Parent(target);
      AnchorIsDeepest(t, parent);
      assert forall j :: 0 <= j < |target| ==> target[..j] == parent[..j];
    }
  }

  // The deepest ancestor of the target that exists, resolved, followed by the
  // names below it.
  function Locate(t: Inode, target: Path): Outcome
    requires t.Dir? && AllPlain(target)
  {
    var k := Anchor(t, target);
    var r := Resolve(t, target[..k]);
    if r.Found? then Found(r.path + target[k..], r.left) else r
  }

  // The specification of SafePath, on components.
  function SafeTarget(t: Inode, root: Path, req: string): Result<Path, FsError>
    requires t.Dir? && AllPlain(root)
  {
    if |req| > MAX_PATH_LENGTH then Err(PathTooLong)
    else if '\0' in req || IsAbs(req) then Err(PathTraversal)
    else if !Resolve(t, root).Found? then Err(PathResolution)
    else JailedTarget(t, ResolvedRoot(t, root), req)
  }

  function ResolvedRoot(t: Inode, root: Path): (r: Path)
    requires t.Dir? && AllPlain(root) && Resolve(t, root).Found?
    ensures Canonical(t, r)
  {
    ResolveIdempotent(t, root);
    Resolve(t, root).path
  }

  function JailedTarget(t: Inode, r: Path, req: string): Result<Path, FsError>
    requires t.Dir? && AllPlain(r)
  {
    var target := Normalize(r, Split(req));
    if !Within(target, r) then Err(PathTraversal)
    else if !Locate(t, target).Found? then Err(PathTraversal)
    else if !Within(Locate(t, target).path, r) then Err(PathTraversal)
    else Ok(Locate(t, target).path)
  }

  function Rendered(r: Result<Path, FsError>): Result<string, FsError> {
    match r
    case Ok(p) => Ok(Render(p))
    case Err(e) => Err(e)
  }

  // ---- The ancestor walk ----

  lemma FailureIsInherited(t: Inode, p: Path, q: Path)
    requires t.Dir? && AllPlain(p + q) && !Resolve(t, p).Found?
    ensures Resolve(t, p + q) == Resolve(t, p)
  {
    assert AllPlain(p) by {
      assert forall i :: 0 <= i < |p| ==> (p + q)[i] == p[i];
    }
    if q != [] {
      WalkConcat(t, [], p, q, EVAL_LINKS);
    } else {
      assert p + q == p;
    }
  }

  // Every level down to the anchor is free of "not exist".
  lemma AnchorIsBoundary(t: Inode, target: Path, j: nat)
    requires t.Dir? && AllPlain(target) && j <= |target|
    ensures Resolve(t, target[..j]) == NotExist <==> Anchor(t, target) < j
  {
    var k := Anchor(t, target);
    AnchorIsDeepest(t, target);
    if j <= k && Resolve(t, target[..j]) == NotExist {
      assert target[..k] == target[..j] + target[j..k];
      FailureIsInherited(t, target[..j], target[j..k]);
    }
  }

  lemma JoinPlain(p: Path, name: string)
    requires AllPlain(p) && Plain(name)
    ensures Join(Render(p), name) == Render(p + [name])
  {
    SplitUnsplit([name]);
    CleanRelativePlain(0, [], [name]);
    assert [] + [name] == [name];
    assert Dots(0) + [name] == [name];
    assert Clean(name) == name;
    JoinRoot(p, name);
    NormalizePlain(p, [name]);
  }

  // What resolveWithAncestorWalk answers. It is the located target, unless the
  // walk meets a root that does not exist.
  function AncestorWalk(t: Inode, target: Path, root: Path): Result<string, Outcome>
    requires t.Dir? && AllPlain(target)
  {
    if root <= target && Resolve(t, root) == NotExist then Err(NotExist)
    else if Locate(t, target).Found? then Ok(Render(Locate(t, target).path))
    else Err(Locate(t, target))
  }

  // Go's resolveWithAncestorWalk
  method ResolveWithAncestorWalk(t: Inode, targetPath: string, rootResolved: string,
                                 ghost target: Path, ghost root: Path)
    returns (r: Result<string, Outcome>)
    requires t.Dir? && AllPlain(target) && AllPlain(root)
    requires targetPath == Render(target) && rootResolved == Render(root)
    ensures r == AncestorWalk(t, target, root)
  {
    EvalSymlinksRender(t, target);
    assert target[..|target|] == target && target[|target|..] == [];
    var resolved := EvalSymlinks(t, targetPath);
    if resolved.Found? {
      Reached(t, target, root, |target|);
      assert resolved.path + [] == resolved.path;
      return Ok(Render(resolved.path));
    }
    if resolved != NotExist {
      Reached(t, target, root, |target|);
      return Err(resolved);
    }
    r := Climb(t, targetPath, rootResolved, target, root);
  }

  // The rest of resolveWithAncestorWalk. The loop climbs from the target to the
  // deepest ancestor that exists. The fallback after the loop runs only when
  // the root itself does not exist, and then it fails.
  method Climb(t: Inode, targetPath: string, rootResolved: string, ghost target: Path, ghost root: Path)
    returns (r: Result<string, Outcome>)
    requires t.Dir? && AllPlain(target) && AllPlain(root) && Resolve(t, target) == NotExist
    requires targetPath == Render(target) && rootResolved == Render(root)
    ensures r == AncestorWalk(t, target, root)
  {
    assert target[..|target|] == target && target[|target|..] == [];
    var current := targetPath;
    var remaining: seq<string> := [];
    ghost var k := |target|;
    while current != rootResolved && current != DirOf(current)
      invariant 0 <= k <= |target| && current == Render(target[..k]) && remaining == target[k..]
      invariant Resolve(t, target[..k]) == NotExist
      invariant root <= target ==> |root| <= k
      decreases k
    {
      ClimbStep(t, target, root, k);
      remaining := [Base(current)] + remaining;
      current := DirOf(current);
      k := k - 1;
      var resolved := EvalSymlinks(t, current);
      if resolved.Found? {
        var result := AppendAll(Render(resolved.path), remaining, resolved.path);
        return Ok(result);
      }
      if resolved != NotExist {
        return Err(resolved);
      }
    }
    StoppedAtRoot(t, target[..k], root);
    EvalSymlinksRender(t, root);
    var resolvedRoot := EvalSymlinks(t, rootResolved);
    if resolvedRoot.Found? {
      assert false;
    }
    r := Err(resolvedRoot);
  }

  // The climb has come to a level k that does not end in "not exist".
  lemma Reached(t: Inode, target: Path, root: Path, k: nat)
    requires t.Dir? && AllPlain(target) && AllPlain(root) && k <= |target|
    requires Resolve(t, target[..k]) != NotExist
    requires k < |target| ==> Resolve(t, target[..k + 1]) == NotExist
    requires root <= target ==> |root| <= k
    ensures var here := Resolve(t, target[..k]);
            && (here.Found? ==> AllPlain(here.path) &&
                                AncestorWalk(t, target, root) == Ok(Render(here.path + target[k..])))
            && (!here.Found? ==> AncestorWalk(t, target, root) == Err(here))
  {
    AnchorFound(t, target, k);
    if Resolve(t, target[..k]).Found? {
      WalkFindsCanonical(t, [], target[..k], EVAL_LINKS);
    }
    if root <= target && Resolve(t, root) == NotExist {
      assert target[..k] == root + target[|root|..k];
      FailureIsInherited(t, root, target[|root|..k]);
    }
  }

  // One round of the climb, on strings and on components.
  lemma WalkUp(target: Path, k: nat)
    requires AllPlain(target) && 0 < k <= |target|
    ensures DirOf(Render(target[..k])) == Render(target[..k - 1])
    ensures [Base(Render(target[..k]))] + target[k..] == target[k - 1..]
  {
    var here := target[..k];
    DirOfRender(here);
    assert here[..k - 1] == target[..k - 1];
    assert [target[k - 1]] + target[k..] == target[k - 1..];
  }

  // One round of the climb: where it gets to, and that it is done if that exists.
  lemma ClimbStep(t: Inode, target: Path, root: Path, k: nat)
    requires t.Dir? && AllPlain(target) && AllPlain(root) && 0 < k <= |target|
    requires Resolve(t, target[..k]) == NotExist && Render(target[..k]) != Render(root)
    requires root <= target ==> |root| <= k
    ensures DirOf(Render(target[..k])) == Render(target[..k - 1])
    ensures [Base(Render(target[..k]))] + target[k..] == target[k - 1..]
    ensures root <= target ==> |root| <= k - 1
    ensures var here := EvalSymlinks(t, Render(target[..k - 1]));
            && here == Resolve(t, target[..k - 1])
            && (here.Found? ==> AllPlain(here.path) &&
                                AncestorWalk(t, target, root) == Ok(Render(here.path + target[k - 1..])))
            && (!here.Found? && here != NotExist ==> AncestorWalk(t, target, root) == Err(here))
  {
    WalkUp(target, k);
    PrefixIsRoot(target, root);
    EvalSymlinksRender(t, target[..k - 1]);
    if Resolve(t, target[..k - 1]) != NotExist {
      Reached(t, target, root, k - 1);
    }
  }

  lemma PrefixIsRoot(target: Path, root: Path)
    ensures root <= target ==> target[..|root|] == root
  {
  }

  lemma AnchorFound(t: Inode, target: Path, k: nat)
    requires t.Dir? && AllPlain(target) && k <= |target| && Resolve(t, target[..k]) != NotExist
    requires k < |target| ==> Resolve(t, target[..k + 1]) == NotExist
    ensures Anchor(t, target) == k
  {
    AnchorIsBoundary(t, target, k);
    if k < |target| {
      AnchorIsBoundary(t, target, k + 1);
    }
  }

  // The climb stops only at the root or at "/", and "/" always resolves.
  lemma StoppedAtRoot(t: Inode, p: Path, root: Path)
    requires t.Dir? && AllPlain(p) && AllPlain(root) && Resolve(t, p) == NotExist
    requires Render(p) == Render(root) || Render(p) == DirOf(Render(p))
    ensures p == root
  {
    DirOfRender(p);
    if Render(p) == Render(root) {
      RenderInjective(p, root);
    } else {
      RenderInjective(p, Parent(p));
    }
  }

  method AppendAll(start: string, names: seq<string>, ghost p: Path) returns (result: string)
    requires AllPlain(p) && AllPlain(names) && start == Render(p)
    ensures result == Render(p + names)
  {
    result := start;
    assert p + names[..0] == p;
    for i := 0 to |names|
      invariant result == Render(p + names[..i])
    {
      JoinPlain(p + names[..i], names[i]);
      assert p + names[..i] + [names[i]] == p + names[..i + 1];
      result := Join(result, names[i]);
    }
    assert p + names[..|names|] == p + names;
  }

  // ---- SafePath ----

  lemma RootString(site: Site)
    requires site.Valid()
    ensures Abs(site.cwd, Clean(site.rootDir)) == Render(site.Root())
  {
    var c := Clean(site.rootDir);
    if !IsAbs(c) {
      assert site.cwd + "/" + c != "" && (site.cwd + "/" + c)[0] == '/';
    }
  }

  // Go's SafePath: five checks on strings.
  method SafePath(t: Inode, site: Site, requestedPath: string) returns (r: Result<string, FsError>)
    requires t.Dir? && site.Valid()
    ensures r == Rendered(SafeTarget(t, site.Root(), requestedPath))
    ensures |requestedPath| > 4096 <==> r == Err(PathTooLong)
    ensures |requestedPath| <= 4096 && ('\0' in requestedPath || (requestedPath != "" && requestedPath[0] == '/')) ==>
              r == Err(PathTraversal)
    ensures r == Err(PathResolution) <==>
              && |requestedPath| <= 4096 && '\0' !in requestedPath && (requestedPath == "" || requestedPath[0] != '/')
              && !Resolve(t, site.Root()).Found?
  {
    if |requestedPath| > MAX_PATH_LENGTH {
      return Err(PathTooLong);
    }
    if '\0' in requestedPath {
      return Err(PathTraversal);
    }
    if IsAbs(requestedPath) {
      return Err(PathTraversal);
    }
    var rootAbs := Abs(site.cwd, Clean(site.rootDir));
    RootString(site);
    EvalSymlinksRender(t, site.Root());
    var rootFound := EvalSymlinks(t, rootAbs);
    if !rootFound.Found? {
      return Err(PathResolution);
    }
    ghost var root := ResolvedRoot(t, site.Root());
    var rootResolved := Render(rootFound.path);

    var joined := Join(rootResolved, Clean(requestedPath));
    JoinRoot(root, requestedPath);
    ghost var target := Normalize(root, Split(requestedPath));
    var abs := Abs(site.cwd, joined);
    CleanRender(target);

    WithinRootIsComponentPrefix(target, root);
    if !IsWithinRoot(abs, rootResolved) {
      return Err(PathTraversal);
    }
    var resolved := ResolveWithAncestorWalk(t, abs, rootResolved, target, root);
    WalkCanonical(t, root, EVAL_LINKS);
    if resolved.Err? {
      return Err(PathTraversal);
    }
    ghost var p := Locate(t, target).path;
    LocatedIsPlain(t, target);
    WithinRootIsComponentPrefix(p, root);
    if !IsWithinRoot(resolved.value, rootResolved) {
      return Err(PathTraversal);
    }
    return Ok(resolved.value);
  }

  lemma LocatedIsPlain(t: Inode, target: Path)
    requires t.Dir? && AllPlain(target) && Locate(t, target).Found?
    ensures AllPlain(Locate(t, target).path)
  {
    WalkFindsCanonical(t, [], target[..Anchor(t, target)], EVAL_LINKS);
  }

  // ---- What the jail guarantees ----

  // A located path either exists and is canonical, or consists of an existing
  // canonical directory and the target's last names, none of which resolves.
  lemma LocateShape(t: Inode, target: Path)
    requires t.Dir? && AllPlain(target) && Locate(t, target).Found?
    ensures var p, k := Locate(t, target).path, Anchor(t, target);
            var a := |p| - (|target| - k);
            && 0 <= a <= |p| && AllPlain(p) && p[a..] == target[k..]
            && Canonical(t, p[..a]) && Resolve(t, target[..k]) == Found(p[..a], Resolve(t, target[..k]).left)
            && (forall j :: 0 <= j <= a ==> Resolve(t, p[..j]) == Found(p[..j], EVAL_LINKS))
            && (forall j :: a < j <= |p| ==> Resolve(t, p[..j]) == NotExist)
            && (a < |p| ==> IsDir(t, p[..a]))
  {
    var p, k := Locate(t, target).path, Anchor(t, target);
    var a := |p| - (|target| - k);
    LocatedIsPlain(t, target);
    WalkFindsCanonical(t, [], target[..k], EVAL_LINKS);
    CanonicalLevels(t, p, a);
    if a < |p| {
      AnchorIsDeepest(t, target);
      LocatedMissing(t, target, k, p, a);
    }
  }

  // Below the deepest ancestor that resolves, nothing does.
  lemma LocatedMissing(t: Inode, target: Path, k: nat, p: Path, a: nat)
    requires t.Dir? && AllPlain(target) && AllPlain(p) && k < |target| && a < |p| && p[a] == target[k]
    requires Resolve(t, target[..k]).Found? && Resolve(t, target[..k]).path == p[..a] && Canonical(t, p[..a])
    requires Resolve(t, target[..k + 1]) == NotExist
    ensures forall j :: a < j <= |p| ==> Resolve(t, p[..j]) == NotExist
    ensures IsDir(t, p[..a])
  {
    assert p[..a] + [target[k]] == p[..a + 1];
    WalkCanonical(t, p[..a], EVAL_LINKS);
    assert target[..k] + [target[k]] == target[..k + 1];
    ChildMissing(t, target[..k], p[..a], target[k]);
    MissingLevels(t, p, a);
  }

  lemma CanonicalLevels(t: Inode, p: Path, a: nat)
    requires a <= |p| && Canonical(t, p[..a])
    ensures forall j :: 0 <= j <= a ==> Resolve(t, p[..j]) == Found(p[..j], EVAL_LINKS)
  {
    forall j | 0 <= j <= a ensures Resolve(t, p[..j]) == Found(p[..j], EVAL_LINKS) {
      assert p[..j] == p[..a][..j];
      PrefixIsCanonical(t, p[..a], j);
      WalkCanonical(t, p[..j], EVAL_LINKS);
    }
  }

  lemma MissingLevels(t: Inode, p: Path, a: nat)
    requires t.Dir? && AllPlain(p) && a < |p| && Resolve(t, p[..a + 1]) == NotExist
    ensures forall j :: a < j <= |p| ==> Resolve(t, p[..j]) == NotExist
  {
    forall j | a < j <= |p| ensures Resolve(t, p[..j]) == NotExist {
      assert p[..j] == p[..a + 1] + p[a + 1..j];
      FailureIsInherited(t, p[..a + 1], p[a + 1..j]);
    }
  }

  // A name missing below a path is missing from the directory the path leads to.
  lemma ChildMissing(t: Inode, at: Path, top: Path, name: string)
    requires t.Dir? && AllPlain(at) && AllPlain(top) && Plain(name)
    requires Resolve(t, at).Found? && Resolve(t, at).path == top && Resolve(t, top) == Found(top, EVAL_LINKS)
    requires Resolve(t, at + [name]) == NotExist
    ensures Resolve(t, top + [name]) == NotExist && IsDir(t, top)
  {
    ResolveChild(t, at, name);
    WalkFindsCanonical(t, [], at, EVAL_LINKS);
    MissingWithMoreLinks(t, top, name, Resolve(t, at).left);
    ResolveChild(t, top, name);
  }

  lemma MissingWithMoreLinks(t: Inode, top: Path, name: string, left: nat)
    requires Walk(t, top, [name], left) == NotExist && left <= EVAL_LINKS
    ensures Walk(t, top, [name], EVAL_LINKS) == NotExist
  {
    WalkMoreLinks(t, top, [name], left, EVAL_LINKS - left);
  }

  lemma PrefixIsCanonical(t: Inode, p: Path, k: nat)
    requires Canonical(t, p) && k <= |p|
    ensures Canonical(t, p[..k])
  {
    if k < |p| {
      AncestorIsDir(t, p, k);
    } else {
      assert p[..k] == p;
    }
  }

  // Soundness of the jail, for every tree and every request. The answer p lies
  // under the resolved root. If p resolves, it resolves to itself. If not, its
  // deepest existing ancestor is a canonical directory under the root, and the
  // rest of p are the last names of the lexical target, in order.
  lemma JailSound(t: Inode, root: Path, req: string)
    requires t.Dir? && AllPlain(root) && SafeTarget(t, root, req).Ok?
    ensures Resolve(t, root).Found?
    ensures var r, p := Resolve(t, root).path, SafeTarget(t, root, req).value;
            && r <= p && AllPlain(p)
            && (Resolve(t, p).Found? ==> Canonical(t, p) && Resolve(t, p).path == p)
            && (!Resolve(t, p).Found? ==>
                 exists a :: |r| <= a < |p| && IsDir(t, p[..a]) && Canonical(t, p[..a])
                          && Resolve(t, p[..a + 1]) == NotExist
                          && p[a..] == LastNames(Normalize(r, Split(req)), |p| - a))
  {
    var r, p := ResolvedRoot(t, root), SafeTarget(t, root, req).value;
    var target := Normalize(r, Split(req));
    LocateShape(t, target);
    var k := Anchor(t, target);
    var a := |p| - (|target| - k);
    RootIsAboveAnchor(t, r, p, a);
    assert p[..|p|] == p;
    if a < |p| {
      assert Resolve(t, p[..a + 1]) == NotExist;
      assert target[k..] == LastNames(target, |p| - a);
    }
  }

  // The existing part of the answer reaches down to the root: above it there
  // is nothing but the directories that lead to the root.
  lemma RootIsAboveAnchor(t: Inode, r: Path, p: Path, a: nat)
    requires Canonical(t, r) && r <= p && a <= |p|
    requires a < |p| ==> Resolve(t, p[..a + 1]) == NotExist
    ensures |r| <= a
  {
    if a < |r| {
      assert r[..a + 1] == p[..a + 1];
      PrefixIsCanonical(t, r, a + 1);
      WalkCanonical(t, r[..a + 1], EVAL_LINKS);
    }
  }

  function LastNames(p: Path, n: nat): Path {
    if n <= |p| then p[|p| - n..] else p
  }

  // An answer that resolves is where the kernel goes too, with its own limit on links.
  lemma SafeTargetStat(t: Inode, root: Path, req: string)
    requires t.Dir? && AllPlain(root) && SafeTarget(t, root, req).Ok?
    ensures var p := SafeTarget(t, root, req).value;
            if Canonical(t, p) then Stat(t, p) == Found(p, KERNEL_LINKS) else !Stat(t, p).Found?
  {
    JailSound(t, root, req);
    var p := SafeTarget(t, root, req).value;
    if Canonical(t, p) {
      WalkCanonical(t, p, KERNEL_LINKS);
    } else {
      WalkMoreLinks(t, [], p, KERNEL_LINKS, EVAL_LINKS - KERNEL_LINKS);
    }
  }

  // Every level of an answer is canonical or does not resolve.
  lemma SafeTargetLevels(t: Inode, root: Path, req: string, j: nat)
    requires t.Dir? && AllPlain(root) && SafeTarget(t, root, req).Ok?
    requires j <= |SafeTarget(t, root, req).value|
    ensures var p := SafeTarget(t, root, req).value;
            Canonical(t, p[..j]) || !Stat(t, p[..j]).Found?
  {
    var target := Normalize(ResolvedRoot(t, root), Split(req));
    var p := SafeTarget(t, root, req).value;
    LocateShape(t, target);
    var a := |p| - (|target| - Anchor(t, target));
    if j <= a {
      assert p[..a][..j] == p[..j];
      PrefixIsCanonical(t, p[..a], j);
    } else {
      WalkMoreLinks(t, [], p[..j], KERNEL_LINKS, EVAL_LINKS - KERNEL_LINKS);
    }
  }

  // A target that leads to something existing resolves directly.
  lemma ExistingTarget(t: Inode, target: Path)
    requires t.Dir? && AllPlain(target) && Locate(t, target).Found? && Canonical(t, Locate(t, target).path)
    ensures Anchor(t, target) == |target|
    ensures Resolve(t, target).Found? && Resolve(t, target).path == Locate(t, target).path
  {
    LocateShape(t, target);
    var p := Locate(t, target).path;
    WalkCanonical(t, p, EVAL_LINKS);
    assert p[..|p|] == p && target[..|target|] == target;
  }

  // ---- One more component ----

  // Where a name leads: to what it resolves to, if that is in the jail, or to
  // itself, if nothing is there, as when it is a dangling link.
  function JailedChild(r: Path, child: Path, resolved: Outcome): Result<Path, FsError> {
    if resolved.NotExist? then Ok(child)
    else if resolved.Found? && Within(resolved.path, r) then Ok(resolved.path)
    else Err(PathTraversal)
  }

  // Where SafePath goes for a name below a directory it has already found.
  // Nothing or a plain entry: the entry itself. A link: where the link leads,
  // or the link's own name if the link dangles. A server rooted at "/" refuses
  // every name.
  lemma ChildTarget(t: Inode, root: Path, rel: string, name: string)
    requires t.Dir? && AllPlain(root) && SafeTarget(t, root, rel).Ok? && Plain(name)
    requires IsDir(t, SafeTarget(t, root, rel).value)
    requires '\0' !in name && |Join(rel, name)| <= MAX_PATH_LENGTH
    ensures var p, s := SafeTarget(t, root, rel).value, SafeTarget(t, root, Join(rel, name));
            if ResolvedRoot(t, root) == [] then s == Err(PathTraversal)
            else
              && (!IsLink(t, p + [name]) ==> s == Ok(p + [name]))
              && s == JailedChild(ResolvedRoot(t, root), p + [name],
                                  Resolve(t, Normalize(ResolvedRoot(t, root), Split(rel)) + [name]))
  {
    var r, p := ResolvedRoot(t, root), SafeTarget(t, root, rel).value;
    var target := Normalize(r, Split(rel));
    JoinName(r, rel, name);
    JoinNulFree(rel, name);
    LocateChild(t, target, name);
    LocateChildExactly(t, target, name);
  }

  lemma LocateChildExactly(t: Inode, target: Path, name: string)
    requires t.Dir? && AllPlain(target) && Plain(name)
    requires Locate(t, target).Found? && IsDir(t, Locate(t, target).path)
    ensures AllPlain(target + [name])
    ensures var p, s := Locate(t, target).path, Locate(t, target + [name]);
            && s.Found? == (Resolve(t, target + [name]).Found? || Resolve(t, target + [name]).NotExist?)
            && (s.Found? ==> s.path == if Resolve(t, target + [name]).Found? then Resolve(t, target + [name]).path
                                       else p + [name])
  {
    var p := Locate(t, target).path;
    LocatedIsPlain(t, target);
    ExistingTarget(t, target);
    var child := target + [name];
    ResolveChild(t, target, name);
    LocateByResolving(t, target, name);
  }

  lemma LocateChild(t: Inode, target: Path, name: string)
    requires t.Dir? && AllPlain(target) && Plain(name)
    requires Locate(t, target).Found? && IsDir(t, Locate(t, target).path)
    ensures AllPlain(target + [name])
    ensures var p, s := Locate(t, target).path, Locate(t, target + [name]);
            !IsLink(t, p + [name]) ==> s.Found? && s.path == p + [name]
  {
    var p := Locate(t, target).path;
    LocateChildExactly(t, target, name);
    LocatedIsPlain(t, target);
    ExistingTarget(t, target);
    ResolveChild(t, target, name);
    WalkName(t, p, name, Resolve(t, target).left);
  }

  // Resolving a name that is not a link.
  lemma WalkName(t: Inode, p: Path, name: string, links: nat)
    requires Plain(name)
    ensures !Exists(t, p + [name]) ==> Walk(t, p, [name], links) == NotExist
    ensures Exists(t, p + [name]) && !IsLink(t, p + [name]) ==> Walk(t, p, [name], links) == Found(p + [name], links)
  {
    assert [name][1..] == [];
  }

  lemma LocateByResolving(t: Inode, target: Path, name: string)
    requires t.Dir? && AllPlain(target) && Plain(name) && Resolve(t, target).Found?
    ensures var child, s := target + [name], Locate(t, target + [name]);
            && (Resolve(t, child) == NotExist ==> s.Found? && s.path == Resolve(t, target).path + [name])
            && (Resolve(t, child).Found? ==> s == Resolve(t, child) && Canonical(t, s.path))
            && (Resolve(t, child).NotDirectory? || Resolve(t, child).TooManyLinks? ==> !s.Found?)
  {
    var child := target + [name];
    assert child[..|child|] == child && child[..|target|] == target;
    assert child[|target|..] == [name];
    if Resolve(t, child) == NotExist {
      AnchorFound(t, child, |target|);
    } else {
      AnchorFound(t, child, |child|);
    }
    if Resolve(t, child).Found? {
      WalkFindsCanonical(t, [], child, EVAL_LINKS);
      assert Resolve(t, child).path + child[|child|..] == Resolve(t, child).path;
    }
  }

  // ---- Where links lead ----

  // The configured root, its links replaced.
  lemma RootByLinks(t: Inode, root: Path, r: Path)
    requires t.Dir? && AllPlain(root)
    ensures Resolve(t, root).Found? && Resolve(t, root).path == r <==>
              exists n: nat :: n <= EVAL_LINKS && LeadsTo(t, root, n, r)
  {
    ResolvesBy(t, root, r);
  }

  lemma ResolvesBy(t: Inode, x: Path, q: Path)
    requires t.Dir? && AllPlain(x)
    ensures Resolve(t, x).Found? && Resolve(t, x).path == q <==>
              exists n: nat :: n <= EVAL_LINKS && LeadsTo(t, x, n, q)
  {
    if Resolve(t, x).Found? && Resolve(t, x).path == q {
      WalkFindsCanonical(t, [], x, EVAL_LINKS);
      ResolvesExactly(t, x, EVAL_LINKS, q, Resolve(t, x).left);
      assert LeadsTo(t, x, EVAL_LINKS - Resolve(t, x).left, q);
    }
    forall n: nat | n <= EVAL_LINKS && LeadsTo(t, x, n, q)
      ensures Resolve(t, x) == Found(q, EVAL_LINKS - n)
    {
      ResolvesExactly(t, x, EVAL_LINKS, q, EVAL_LINKS - n);
    }
  }

  // SafePath answers with a path that exists exactly when the request, read
  // lexically, stays below the root and leads there by replacing at most 255
  // links, and the place is below the root.
  lemma AnswersByLinks(t: Inode, root: Path, req: string, q: Path)
    requires t.Dir? && AllPlain(root) && Resolve(t, root).Found? && Canonical(t, q)
    requires |req| <= MAX_PATH_LENGTH && '\0' !in req && !IsAbs(req)
    ensures var r := ResolvedRoot(t, root);
            var x := Normalize(r, Split(req));
            SafeTarget(t, root, req) == Ok(q) <==>
              Within(x, r) && Within(q, r) && exists n: nat :: n <= EVAL_LINKS && LeadsTo(t, x, n, q)
  {
    AnswerIsLocated(t, root, req, q);
    LocatedByLinks(t, Normalize(ResolvedRoot(t, root), Split(req)), q);
  }

  lemma AnswerIsLocated(t: Inode, root: Path, req: string, q: Path)
    requires t.Dir? && AllPlain(root) && Resolve(t, root).Found?
    requires |req| <= MAX_PATH_LENGTH && '\0' !in req && !IsAbs(req)
    ensures var r := ResolvedRoot(t, root);
            var x := Normalize(r, Split(req));
            SafeTarget(t, root, req) == Ok(q) <==>
              Within(x, r) && Within(q, r) && Locate(t, x).Found? && Locate(t, x).path == q
  {
  }

  lemma LocatedByLinks(t: Inode, x: Path, q: Path)
    requires t.Dir? && AllPlain(x) && Canonical(t, q)
    ensures Locate(t, x).Found? && Locate(t, x).path == q <==>
              exists n: nat :: n <= EVAL_LINKS && LeadsTo(t, x, n, q)
  {
    ResolvesBy(t, x, q);
    LocatedOrNot(t, x, q);
  }

  // An existing place is located exactly if the target resolves to it.
  lemma LocatedOrNot(t: Inode, x: Path, q: Path)
    requires t.Dir? && AllPlain(x) && Canonical(t, q)
    ensures Locate(t, x).Found? && Locate(t, x).path == q <==> Resolve(t, x).Found? && Resolve(t, x).path == q
  {
    if Locate(t, x).Found? && Locate(t, x).path == q {
      ExistingTarget(t, x);
    }
    if Resolve(t, x).Found? {
      assert x[..|x|] == x;
      AnchorFound(t, x, |x|);
      assert Resolve(t, x).path + x[|x|..] == Resolve(t, x).path;
    }
  }

  // Where a link in a served directory takes a request, if fewer than 255 links
  // were replaced on the way to the directory: its target is read from
  // the root if it is absolute, else from the directory, ".." included, and the
  // answer is that place if it is below the root, and a refusal if it is not.
  lemma LinkedTarget(t: Inode, root: Path, rel: string, name: string, links: nat, target: string, start: Path, q: Path)
    requires t.Dir? && AllPlain(root) && SafeTarget(t, root, rel).Ok? && ResolvedRoot(t, root) != []
    requires Plain(name) && '\0' !in name && |Join(rel, name)| <= MAX_PATH_LENGTH
    requires IsDir(t, SafeTarget(t, root, rel).value)
    requires Lookup(t, SafeTarget(t, root, rel).value + [name]) == Some(Link(target))
    requires start == if target != "" && target[0] == '/' then [] else SafeTarget(t, root, rel).value
    requires AllPlain(start) && Straight(t, start, Split(target)) && q == Normalize(start, Split(target))
    requires LeadsTo(t, Normalize(ResolvedRoot(t, root), Split(rel)), links, SafeTarget(t, root, rel).value)
    requires links < EVAL_LINKS
    ensures SafeTarget(t, root, Join(rel, name))
            == if ResolvedRoot(t, root) <= q then Ok(q) else Err(PathTraversal)
  {
    ChildTarget(t, root, rel, name);
    ResolveLink(t, Normalize(ResolvedRoot(t, root), Split(rel)), SafeTarget(t, root, rel).value, name, links,
                target, start, q);
  }

  lemma ResolveLink(t: Inode, x: Path, p: Path, name: string, links: nat, target: string, start: Path, q: Path)
    requires t.Dir? && AllPlain(x) && Plain(name) && IsDir(t, p) && Lookup(t, p + [name]) == Some(Link(target))
    requires start == if target != "" && target[0] == '/' then [] else p
    requires AllPlain(start) && Straight(t, start, Split(target)) && q == Normalize(start, Split(target))
    requires LeadsTo(t, x, links, p) && links < EVAL_LINKS
    ensures Resolve(t, x + [name]) == Found(q, EVAL_LINKS - links - 1)
  {
    var left := EVAL_LINKS - links - 1;
    ResolvedBy(t, x, p, links);
    WalkStraight(t, start, Split(target), left);
    ResolveOnto(t, x, p, name, target, start, Found(q, left), left);
  }

  lemma ResolvedBy(t: Inode, x: Path, p: Path, links: nat)
    requires t.Dir? && AllPlain(x) && LeadsTo(t, x, links, p) && links <= EVAL_LINKS
    ensures Resolve(t, x) == Found(p, EVAL_LINKS - links)
  {
    ResolvesExactly(t, x, EVAL_LINKS, p, EVAL_LINKS - links);
  }

  lemma ResolveOnto(t: Inode, x: Path, p: Path, name: string, target: string, start: Path, found: Outcome, left: nat)
    requires t.Dir? && AllPlain(x) && Plain(name) && IsDir(t, p) && Lookup(t, p + [name]) == Some(Link(target))
    requires start == if IsAbs(target) then [] else p
    requires Resolve(t, x) == Found(p, left + 1) && Walk(t, start, Split(target), left) == found
    ensures Resolve(t, x + [name]) == found
  {
    ResolveChild(t, x, name);
    WalkLinkOnto(t, p, name, target, left + 1);
  }

  lemma WalkLinkOnto(t: Inode, p: Path, name: string, target: string, links: nat)
    requires Plain(name) && Lookup(t, p + [name]) == Some(Link(target)) && links > 0
    ensures Walk(t, p, [name], links) == Walk(t, if IsAbs(target) then [] else p, Split(target), links - 1)
  {
    assert [name][1..] == [] && Split(target) + [] == Split(target);
  }

  // A link to an absolute path.
  lemma AbsoluteLink(t: Inode, root: Path, rel: string, name: string, links: nat, q: Path)
    requires t.Dir? && AllPlain(root) && SafeTarget(t, root, rel).Ok? && ResolvedRoot(t, root) != []
    requires Plain(name) && '\0' !in name && |Join(rel, name)| <= MAX_PATH_LENGTH
    requires IsDir(t, SafeTarget(t, root, rel).value)
    requires Canonical(t, q) && Lookup(t, SafeTarget(t, root, rel).value + [name]) == Some(Link(Render(q)))
    requires LeadsTo(t, Normalize(ResolvedRoot(t, root), Split(rel)), links, SafeTarget(t, root, rel).value)
    requires links < EVAL_LINKS
    ensures SafeTarget(t, root, Join(rel, name))
            == if ResolvedRoot(t, root) <= q then Ok(q) else Err(PathTraversal)
  {
    NormalizeRender(q);
    StraightRender(t, q);
    LinkedTarget(t, root, rel, name, links, Render(q), [], q);
  }

  // A link that climbs some levels from its directory and goes down again.
  lemma RelativeLink(t: Inode, root: Path, rel: string, name: string, links: nat, ups: nat, names: Path)
    requires t.Dir? && AllPlain(root) && SafeTarget(t, root, rel).Ok? && ResolvedRoot(t, root) != []
    requires Plain(name) && '\0' !in name && |Join(rel, name)| <= MAX_PATH_LENGTH
    requires IsDir(t, SafeTarget(t, root, rel).value) && AllPlain(names) && Dots(ups) + names != []
    requires Lookup(t, SafeTarget(t, root, rel).value + [name]) == Some(Link(Unsplit(Dots(ups) + names)))
    requires ups <= |SafeTarget(t, root, rel).value|
    requires var p := SafeTarget(t, root, rel).value; Canonical(t, p[..|p| - ups] + names)
    requires LeadsTo(t, Normalize(ResolvedRoot(t, root), Split(rel)), links, SafeTarget(t, root, rel).value)
    requires links < EVAL_LINKS
    ensures var p := SafeTarget(t, root, rel).value;
            var q := p[..|p| - ups] + names;
            SafeTarget(t, root, Join(rel, name)) == if ResolvedRoot(t, root) <= q then Ok(q) else Err(PathTraversal)
  {
    var p := SafeTarget(t, root, rel).value;
    ServedIsPlain(t, root, rel);
    UpAndDown(t, p, ups, names);
    LinkedTarget(t, root, rel, name, links, Unsplit(Dots(ups) + names), p, p[..|p| - ups] + names);
  }

  lemma ServedIsPlain(t: Inode, root: Path, rel: string)
    requires t.Dir? && AllPlain(root) && SafeTarget(t, root, rel).Ok?
    ensures AllPlain(SafeTarget(t, root, rel).value)
  {
    LocatedIsPlain(t, Normalize(ResolvedRoot(t, root), Split(rel)));
  }

  lemma UpAndDown(t: Inode, p: Path, ups: nat, names: Path)
    requires IsDir(t, p) && AllPlain(p) && AllPlain(names) && Dots(ups) + names != [] && ups <= |p|
    requires Canonical(t, p[..|p| - ups] + names)
    ensures var target := Unsplit(Dots(ups) + names);
            && !(target != "" && target[0] == '/')
            && Straight(t, p, Split(target)) && Normalize(p, Split(target)) == p[..|p| - ups] + names
  {
    CleanRelativeDots(ups, names);
    SplitUnsplit(Dots(ups) + names);
    StraightUpDown(t, p, ups, names);
    UnsplitIsRelative(Dots(ups) + names);
  }

  // ---- Several more components ----

  // No file and no link stands in the way from p down along the names.
  predicate ClearBelow(t: Inode, p: Path, names: Path) {
    forall j :: 0 <= j <= |names| && Exists(t, p + names[..j]) ==> IsDir(t, p + names[..j])
  }

  lemma ClearBelowTail(t: Inode, p: Path, names: Path)
    requires names != [] && ClearBelow(t, p, names)
    ensures Exists(t, p + [names[0]]) ==> IsDir(t, p + [names[0]])
    ensures ClearBelow(t, p + [names[0]], names[1..])
  {
    assert names[..1] == [names[0]];
    forall j | 0 <= j <= |names[1..]|
      ensures (p + [names[0]]) + names[1..][..j] == p + names[..j + 1]
    {
      assert names[..j + 1] == [names[0]] + names[1..][..j];
    }
  }

  lemma {:induction false} LocateBelow(t: Inode, target: Path, names: Path)
    requires t.Dir? && AllPlain(target) && AllPlain(names)
    requires Locate(t, target).Found? && IsDir(t, Locate(t, target).path)
    requires ClearBelow(t, Locate(t, target).path, names)
    ensures AllPlain(target + names)
    ensures Locate(t, target + names).Found? && Locate(t, target + names).path == Locate(t, target).path + names
    decreases |names|
  {
    var p := Locate(t, target).path;
    if names == [] {
      assert target + names == target && p + names == p;
    } else {
      var child := target + [names[0]];
      LocateFirst(t, target, names);
      FirstThenRest(target, names);
      FirstThenRest(p, names);
      if Exists(t, p + [names[0]]) {
        LocateBelow(t, child, names[1..]);
      } else {
        MissingBelow(t, target, names);
      }
    }
  }

  lemma FirstThenRest(p: Path, names: Path)
    requires names != []
    ensures p + names == (p + [names[0]]) + names[1..]
  {
  }

  lemma LocateFirst(t: Inode, target: Path, names: Path)
    requires t.Dir? && AllPlain(target) && AllPlain(names) && names != []
    requires Locate(t, target).Found? && IsDir(t, Locate(t, target).path)
    requires ClearBelow(t, Locate(t, target).path, names)
    ensures AllPlain(target + [names[0]]) && AllPlain(target + names)
    ensures var p, s := Locate(t, target).path, Locate(t, target + [names[0]]);
            && s.Found? && s.path == p + [names[0]]
            && (Exists(t, p + [names[0]]) ==> IsDir(t, s.path) && ClearBelow(t, s.path, names[1..]))
  {
    ClearBelowTail(t, Locate(t, target).path, names);
    LocateChild(t, target, names[0]);
  }

  // Below a name that does not exist, everything is left as it is asked for.
  lemma MissingBelow(t: Inode, target: Path, names: Path)
    requires t.Dir? && AllPlain(target) && AllPlain(target + names) && names != []
    requires Locate(t, target).Found? && IsDir(t, Locate(t, target).path)
    requires !Exists(t, Locate(t, target).path + [names[0]])
    ensures Locate(t, target + names).Found? && Locate(t, target + names).path == Locate(t, target).path + names
  {
    var p, all := Locate(t, target).path, target + names;
    assert names[0] == all[|target|];
    ExistingTarget(t, target) by { LocatedIsPlain(t, target); }
    ResolveChild(t, target, names[0]);
    WalkName(t, p, names[0], Resolve(t, target).left);
    assert all[..|target|] == target && all[..|target| + 1] == target + [names[0]];
    assert all[|target|..] == names;
    AnchorFound(t, all, |target|);
  }

  // SafePath for names below a directory it has already found.
  lemma BelowTarget(t: Inode, root: Path, rel: string, names: Path)
    requires t.Dir? && AllPlain(root) && SafeTarget(t, root, rel).Ok? && AllPlain(names) && NulFree(names)
    requires names != [] && ResolvedRoot(t, root) != []
    requires IsDir(t, SafeTarget(t, root, rel).value) && ClearBelow(t, SafeTarget(t, root, rel).value, names)
    requires |Join(rel, Unsplit(names))| <= MAX_PATH_LENGTH
    ensures SafeTarget(t, root, Join(rel, Unsplit(names))) == Ok(SafeTarget(t, root, rel).value + names)
  {
    var r := ResolvedRoot(t, root);
    var target := Normalize(r, Split(rel));
    JoinNames(r, rel, names);
    UnsplitNulFree(names);
    JoinNulFree(rel, Unsplit(names)) by { assert Plain(names[0]) && Unsplit(names)[0] == names[0][0]; }
    LocateBelow(t, target, names);
  }

  // ---- What is served ----

  // A configured root without links is served itself.
  lemma RootIsItself(t: Inode, root: Path)
    requires t.Dir? && Canonical(t, root)
    ensures Resolve(t, root).Found? && ResolvedRoot(t, root) == root
    ensures Locate(t, root).Found? && Locate(t, root).path == root
  {
    WalkCanonical(t, root, EVAL_LINKS);
    LocatedOrNot(t, root, root);
  }

  lemma LocateOwn(t: Inode, root: Path, names: Path)
    requires t.Dir? && Canonical(t, root) && IsDir(t, root) && AllPlain(names)
    requires names != [] ==> ClearBelow(t, root, Parent(names)) && !IsLink(t, root + names)
    ensures AllPlain(root + names)
    ensures Locate(t, root + names).Found? && Locate(t, root + names).path == root + names
  {
    RootIsItself(t, root);
    if names == [] {
      assert root + names == root;
    } else {
      var front, last := Parent(names), names[|names| - 1];
      assert names == front + [last] && root + names == (root + front) + [last];
      if Exists(t, root + front) {
        assert front[..|front|] == front;
        LocateBelow(t, root, front);
        LocateChild(t, root + front, last);
      } else {
        ClearUpToMissing(t, root, front, last);
        LocateBelow(t, root, names);
      }
    }
  }

  lemma ClearUpToMissing(t: Inode, p: Path, front: Path, last: string)
    requires ClearBelow(t, p, front) && !Exists(t, p + front)
    ensures ClearBelow(t, p, front + [last])
  {
    var names := front + [last];
    LookupChild(t, p + front, last);
    assert p + names == (p + front) + [last];
    forall j | 0 <= j <= |names| && Exists(t, p + names[..j])
      ensures IsDir(t, p + names[..j])
    {
      assert names[..|names|] == names;
      assert j < |names| ==> names[..j] == front[..j];
    }
  }

  // The root serves itself, and every path below it on which no link and no file
  // is in the way, whether it is there or not, under the names of its components.
  lemma ServesOwnPaths(t: Inode, root: Path, names: Path)
    requires t.Dir? && Canonical(t, root) && IsDir(t, root) && root != []
    requires AllPlain(names) && NulFree(names) && |Unsplit(names)| <= MAX_PATH_LENGTH
    requires names != [] ==> ClearBelow(t, root, Parent(names)) && !IsLink(t, root + names)
    ensures SafeTarget(t, root, ".") == Ok(root)
    ensures SafeTarget(t, root, Unsplit(names)) == Ok(root + names)
  {
    RootIsItself(t, root);
    SplitSlashFree(".");
    LexicalStep(root, ".");
    LocateOwn(t, root, names);
    NamesAsRequest(root, names);
  }

  // The names of a path, joined, are a request for it.
  lemma NamesAsRequest(root: Path, names: Path)
    requires AllPlain(root) && AllPlain(names) && NulFree(names)
    ensures '\0' !in Unsplit(names) && !IsAbs(Unsplit(names)) && Normalize(root, Split(Unsplit(names))) == root + names
  {
    UnsplitNulFree(names);
    if names == [] {
      assert Split("") == [""] && root + names == root;
      NormalizeEmpty(root);
    } else {
      SplitUnsplit(names);
      NormalizePlain(root, names);
      UnsplitIsRelative(names);
    }
  }

  // Which directory the configuration names: an absolute path itself, a relative
  // one read from the working directory.
  lemma RootMeans(site: Site, p: Path, cwd: Path, ups: nat, names: Path)
    requires AllPlain(p) && AllPlain(cwd) && AllPlain(names)
    ensures site.rootDir == Render(p) ==> site.Root() == p
    ensures site.cwd == Render(cwd) && Dots(ups) + names != [] && site.rootDir == Unsplit(Dots(ups) + names) ==>
              site.Root() == (if ups <= |cwd| then cwd[..|cwd| - ups] else []) + names
  {
    CleanRender(p);
    NormalizeRender(p);
    if Dots(ups) + names != [] && site.rootDir == Unsplit(Dots(ups) + names) {
      RelativeRoot(site, cwd, ups, names);
    }
  }

  lemma RelativeRoot(site: Site, cwd: Path, ups: nat, names: Path)
    requires AllPlain(cwd) && AllPlain(names) && Dots(ups) + names != []
    requires site.rootDir == Unsplit(Dots(ups) + names)
    ensures site.cwd == Render(cwd) ==> site.Root() == (if ups <= |cwd| then cwd[..|cwd| - ups] else []) + names
  {
    CleanUpDown(ups, names);
    SplitConcat(Render(cwd), site.rootDir);
    NormalizeConcat([], Split(Render(cwd)), Dots(ups) + names);
    NormalizeRender(cwd);
    NormalizeUpDown(cwd, ups, names);
  }

  lemma CleanUpDown(ups: nat, names: Path)
    requires AllPlain(names) && Dots(ups) + names != []
    ensures var s := Unsplit(Dots(ups) + names);
            !IsAbs(s) && Clean(s) == s && Split(s) == Dots(ups) + names
  {
    CleanRelativeDots(ups, names);
    SplitUnsplit(Dots(ups) + names);
    UnsplitIsRelative(Dots(ups) + names);
  }

  // ---- Growth ----

  // When every directory of an answer has been made, SafePath gives the same
  // answer again. This is why the second validation inside SafeWriteFile
  // agrees with the one made before MkdirAll.
  lemma RevalidationAgrees(t: Inode, t': Inode, root: Path, req: string)
    requires t.Dir? && t'.Dir? && AllPlain(root) && Extends(t, t')
    requires SafeTarget(t, root, req).Ok? && IsDir(t', SafeTarget(t, root, req).value)
    ensures SafeTarget(t', root, req) == SafeTarget(t, root, req)
  {
    var r, p := ResolvedRoot(t, root), SafeTarget(t, root, req).value;
    WalkExtends(t, t', [], root, EVAL_LINKS);
    LocateExtends(t, t', Normalize(r, Split(req)));
  }

  lemma LocateExtends(t: Inode, t': Inode, target: Path)
    requires t.Dir? && t'.Dir? && AllPlain(target) && Extends(t, t')
    requires Locate(t, target).Found? && IsDir(t', Locate(t, target).path)
    ensures Locate(t', target).Found? && Locate(t', target).path == Locate(t, target).path
  {
    var p, k := Locate(t, target).path, Anchor(t, target);
    AnchorPart(t, target);
    var a := |p| - (|target| - k);
    WalkExtends(t, t', [], target[..k], EVAL_LINKS);
    ResolvesBelow(t', p, a, target, k);
    assert target[..|target|] == target;
    AnchorFound(t', target, |target|);
    assert p + target[|target|..] == p;
  }

  lemma AnchorPart(t: Inode, target: Path)
    requires t.Dir? && AllPlain(target) && Locate(t, target).Found?
    ensures var p, k := Locate(t, target).path, Anchor(t, target);
            var a := |p| - (|target| - k);
            && 0 <= a <= |p| && AllPlain(p) && p[a..] == target[k..] && Exists(t, p[..a])
            && Resolve(t, target[..k]) == Found(p[..a], Resolve(t, target[..k]).left)
  {
    LocateShape(t, target);
  }

  // The names below an anchor that are directories now resolve to themselves.
  lemma ResolvesBelow(t: Inode, p: Path, a: nat, target: Path, k: nat)
    requires AllPlain(p) && AllPlain(target) && a <= |p| && k <= |target| && p[a..] == target[k..]
    requires IsDir(t, p) && t.Dir?
    requires Resolve(t, target[..k]).Found? && Resolve(t, target[..k]).path == p[..a]
    ensures Resolve(t, target).Found? && Resolve(t, target).path == p
  {
    assert target == target[..k] + target[k..] && p == p[..a] + target[k..];
    if k < |target| {
      AncestorIsDir(t, p, a);
      WalkConcat(t, [], target[..k], target[k..], EVAL_LINKS);
      WalkCanonicalFrom(t, p[..a], target[k..], Resolve(t, target[..k]).left);
    } else {
      assert target[..k] == target && p[..a] == p;
    }
  }
}
