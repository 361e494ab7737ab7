// Directory uploads and directory creation.
module DirectoryWrites {
  import opened Paths
  import opened FileTree
  import opened Errors
  import opened Jail
  import opened Names
  import opened Disks
  import opened WritePipeline

  // ---- The directory part of an uploaded file's path ----

  // A component that is empty or sanitises to "_" is dropped.
  function KeptPart(part: string): (r: seq<string>)
    ensures r == [] || (|r| == 1 && Keepable(r[0]))
  {
    if part == "" || SanitizeFilename(part) == FILENAME_FALLBACK then [] else [SanitizeFilename(part)]
  }

  predicate Keepable(part: string) {
    SafeName(part) && part != FILENAME_FALLBACK
  }

  predicate AllKeepable(parts: seq<string>) {
    parts == [] || (AllKeepable(parts[..|parts| - 1]) && Keepable(parts[|parts| - 1]))
  }

  lemma {:induction false} AllKeepableMeans(parts: seq<string>)
    ensures AllKeepable(parts) <==> forall i :: 0 <= i < |parts| ==> Keepable(parts[i])
  {
    if parts != [] {
      AllKeepableMeans(parts[..|parts| - 1]);
    }
  }

  function SanitizedParts(parts: seq<string>): (r: seq<string>)
    ensures AllKeepable(r)
  {
    if parts == [] then []
    else
      var front, kept := SanitizedParts(parts[..|parts| - 1]), KeptPart(parts[|parts| - 1]);
      assert kept != [] ==> (front + kept)[..|front|] == front;
      assert kept == [] ==> front + kept == front;
      front + kept
  }

  lemma KeepableStays(part: string)
    requires Keepable(part)
    ensures KeptPart(part) == [part]
  {
    SafeIsFixed(part);
  }

  lemma {:induction false} KeepablePartsPass(parts: seq<string>)
    requires AllKeepable(parts)
    ensures SanitizedParts(parts) == parts
  {
    if parts != [] {
      KeepablePartsPass(parts[..|parts| - 1]);
      KeepableStays(parts[|parts| - 1]);
      LastRejoined(parts);
    }
  }

  lemma LastRejoined(parts: seq<string>)
    requires parts != []
    ensures parts[..|parts| - 1] + [parts[|parts| - 1]] == parts
  {
  }

  // Names that are safe and not "_" pass through unchanged, and only those.
  lemma SanitizedPartsFixed(parts: seq<string>)
    ensures SanitizedParts(parts) == parts <==> forall i :: 0 <= i < |parts| ==> Keepable(parts[i])
  {
    AllKeepableMeans(parts);
    if AllKeepable(parts) {
      KeepablePartsPass(parts);
    }
  }

  lemma {:induction false} SanitizedPartsSlashFree(parts: seq<string>)
    ensures SlashFree(SanitizedParts(parts)) && NulFree(SanitizedParts(parts)) && AllPlain(SanitizedParts(parts))
  {
    var r := SanitizedParts(parts);
    AllKeepableMeans(r);
    forall i | 0 <= i < |r| ensures Plain(r[i]) && '\0' !in r[i] {
      SafeNameIsPlain(r[i]);
    }
  }

  // r are the parts at the places f, sanitised, and f are, in order, the places of
  // all parts that are neither empty nor sanitise to "_".
  ghost predicate Picked(parts: seq<string>, r: seq<string>, f: seq<nat>) {
    && |f| == |r| && (forall j, k :: 0 <= j < k < |f| ==> f[j] < f[k])
    && (forall k :: 0 <= k < |f| ==> f[k] < |parts| && r[k] == SanitizeFilename(parts[f[k]]))
    && (forall i: nat :: i < |parts| ==> (i in f <==> parts[i] != "" && SanitizeFilename(parts[i]) != "_"))
  }

  lemma {:induction false} PartsArePicked(parts: seq<string>) returns (f: seq<nat>)
    ensures Picked(parts, SanitizedParts(parts), f)
  {
    if parts == [] {
      f := [];
    } else {
      var front, last := parts[..|parts| - 1], parts[|parts| - 1];
      f := PartsArePicked(front);
      f := PickedOneMore(front, SanitizedParts(front), f, last);
      SanitizedOneMore(front, last);
      LastRejoined(parts);
    }
  }

  lemma PickedOneMore(parts: seq<string>, r: seq<string>, f: seq<nat>, part: string) returns (g: seq<nat>)
    requires Picked(parts, r, f)
    ensures Picked(parts + [part], r + KeptPart(part), g)
  {
    if KeptPart(part) == [] {
      g := f;
      PickedSkip(parts, r, f, part);
      assert r + [] == r;
    } else {
      g := f + [|parts|];
      PickedTake(parts, r, f, part);
    }
  }

  lemma PickedSkip(parts: seq<string>, r: seq<string>, f: seq<nat>, part: string)
    requires Picked(parts, r, f) && KeptPart(part) == []
    ensures Picked(parts + [part], r, f)
  {
    assert |parts| !in f;
  }

  lemma PickedTake(parts: seq<string>, r: seq<string>, f: seq<nat>, part: string)
    requires Picked(parts, r, f) && KeptPart(part) != []
    ensures Picked(parts + [part], r + KeptPart(part), f + [|parts|])
  {
    var g := f + [|parts|];
    assert forall i: nat :: i in g <==> i in f || i == |parts|;
    assert |parts| !in f;
  }

  lemma SanitizedOneMore(front: seq<string>, last: string)
    ensures SanitizedParts(front + [last]) == SanitizedParts(front) + KeptPart(last)
  {
    assert (front + [last])[..|front|] == front;
  }

  // There is only one such result.
  lemma PickedIsUnique(parts: seq<string>, r: seq<string>, f: seq<nat>, r': seq<string>, f': seq<nat>)
    requires Picked(parts, r, f) && Picked(parts, r', f')
    ensures r == r' && f == f'
  {
    assert forall i: nat :: i in f ==> i < |parts| && i in f';
    assert forall i: nat :: i in f' ==> i < |parts| && i in f;
    SortedSame(f, f');
  }

  lemma HasLast(f: seq<nat>)
    ensures f == [] || f[|f| - 1] in f
  {
  }

  lemma {:induction false} SortedSame(f: seq<nat>, g: seq<nat>)
    requires forall j, k :: 0 <= j < k < |f| ==> f[j] < f[k]
    requires forall j, k :: 0 <= j < k < |g| ==> g[j] < g[k]
    requires forall i: nat :: i in f <==> i in g
    ensures f == g
    decreases |f|
  {
    HasLast(f);
    HasLast(g);
    if f != [] {
      var n := |f| - 1;
      assert f[n] == g[|g| - 1];
      var f', g' := f[..n], g[..|g| - 1];
      assert f == f' + [f[n]] && g == g' + [g[|g| - 1]];
      forall i: nat
        ensures i in f' <==> i in g'
      {
        assert i in f' <==> i in f && i != f[n];
        assert i in g' <==> i in g && i != f[n];
      }
      SortedSame(f', g');
    }
  }

  method SanitizeParts(parts: seq<string>) returns (r: seq<string>)
    ensures r == SanitizedParts(parts)
    ensures exists f :: Picked(parts, r, f)
  {
    r := [];
    for i := 0 to |parts|
      invariant r == SanitizedParts(parts[..i])
    {
      assert parts[..i + 1][..i] == parts[..i];
      if parts[i] == "" {
        continue;
      }
      var sanitized := SanitizeFilename(parts[i]);
      if sanitized == FILENAME_FALLBACK {
        continue;
      }
      r := r + [sanitized];
    }
    assert parts[..|parts|] == parts;
    ghost var f := PartsArePicked(parts);
  }

  // The sanitised directory components of a relpath, if it is acceptable.
  function RelDirs(relPath: string): Result<Path, FsError> {
    var dirs := SanitizedParts(Split(relPath));
    if relPath == "" || |dirs| == 0 || |dirs| > MAX_REL_PATH_DEPTH then Err(InvalidRelPath) else Ok(dirs)
  }

  // The directory an upload with a relpath goes to.
  function RelTarget(t: Inode, cfg: Settings, baseDir: string, relPath: string): Result<Path, FsError>
    requires t.Dir?
  {
    match RelDirs(relPath)
    case Err(e) => Err(e)
    case Ok(dirs) => SafeTarget(t, cfg.site.Root(), Join(baseDir, Unsplit(dirs)))
  }

  // The target is the directory of the picked components below the base, if there
  // are between 1 and 32 of them.
  lemma RelTargetMeans(t: Inode, cfg: Settings, baseDir: string, relPath: string, dirs: Path, f: seq<nat>)
    requires t.Dir? && Picked(Split(relPath), dirs, f)
    ensures RelTarget(t, cfg, baseDir, relPath)
            == if 1 <= |dirs| <= 32 then SafeTarget(t, cfg.site.Root(), Join(baseDir, Unsplit(dirs)))
               else Err(InvalidRelPath)
  {
    var g := PartsArePicked(Split(relPath));
    PickedIsUnique(Split(relPath), dirs, f, SanitizedParts(Split(relPath)), g);
    if relPath == "" {
      assert Split(relPath) == [""];
      assert dirs == [];
    }
  }

  // A relpath of one component is one directory, its name sanitised; going up
  // first changes nothing.
  lemma OneDirectory(t: Inode, cfg: Settings, baseDir: string, c: string)
    requires t.Dir? && c != "" && '/' !in c && SanitizeFilename(c) != "_"
    ensures RelTarget(t, cfg, baseDir, c) == SafeTarget(t, cfg.site.Root(), Join(baseDir, SanitizeFilename(c)))
    ensures RelTarget(t, cfg, baseDir, "../" + c) == RelTarget(t, cfg, baseDir, c)
  {
    var dir := [SanitizeFilename(c)];
    SplitSlashFree(c);
    SplitSlashFree("..");
    SplitConcat("..", c);
    SanitizeReserved();
    assert "../" + c == ".." + "/" + c;
    assert Split("../" + c) == ["..", c];
    assert Picked([c], dir, [0]);
    assert Picked(["..", c], dir, [1]);
    RelTargetMeans(t, cfg, baseDir, c, dir, [0]);
    RelTargetMeans(t, cfg, baseDir, "../" + c, dir, [1]);
  }

  lemma SanitizeBlank()
    ensures SanitizeFilename("a b") == "a_b"
  {
    SanitizeAscii("a b");
  }

  // For instance: a name with a blank.
  lemma BlankBecomesUnderscore(t: Inode, cfg: Settings, baseDir: string)
    requires t.Dir?
    ensures RelTarget(t, cfg, baseDir, "a b") == SafeTarget(t, cfg.site.Root(), Join(baseDir, "a_b"))
  {
    SanitizeBlank();
    OneDirectory(t, cfg, baseDir, "a b");
  }

  // os.MkdirAll succeeds on the target.
  predicate CanMake(t: Inode, target: Path, env: Env) {
    Makeable(t, target) && MissingLevelsAvoid(t, target, env.mkdirFails)
  }

  // What a directory upload to the target answers.
  function RelOutcome(t: Inode, cfg: Settings, target: Path, filename: string, data: Reader, env: Env)
    : Result<string, FsError>
    requires t.Dir?
  {
    var desired := SanitizeFilename(filename);
    if !CanMake(t, target, env) then Err(CreateDirError)
    else if !ExtAllowed(desired, cfg.allowed) then Err(ExtNotAllowed)
    else
      MakeDirsExtends(t, target);
      WriteOutcome(MakeDirs(t, target), target, cfg, desired, data, env)
  }

  lemma SafeTargetJailed(t: Inode, root: Path, req: string)
    requires t.Dir? && AllPlain(root) && SafeTarget(t, root, req).Ok?
    ensures Jailed(t, SafeTarget(t, root, req).value)
  {
    var p := SafeTarget(t, root, req).value;
    forall j | 0 <= j <= |p|
      ensures Canonical(t, p[..j]) || !Stat(t, p[..j]).Found?
    {
      SafeTargetLevels(t, root, req, j);
    }
  }

  // Go's SafeWriteFileWithRelPath. On success the directories on the way are
  // made and exactly one file is added in the last one. On an error at most
  // directories on the way to the target are added.
  method SafeWriteFileWithRelPath(disk: Disk, cfg: Settings, baseDir: string, relPath: string,
                                  filename: string, data: Reader, env: Env)
    returns (r: Result<string, FsError>, relDir: string)
    requires disk.tree.Dir? && cfg.Valid() && env.Valid()
    modifies disk
    ensures disk.tree.Dir?
    ensures cfg.readonly ==> r == Err(ReadonlyMode)
    ensures var target := RelTarget(old(disk.tree), cfg, baseDir, relPath);
            && (!cfg.readonly && target.Err? ==> r == Err(target.error))
            && (cfg.readonly || target.Err? ==> disk.tree == old(disk.tree))
            && (r.Ok? ==> Makeable(old(disk.tree), target.value) &&
                          Stores(MakeDirs(old(disk.tree), target.value), disk.tree,
                                 target.value, r.value, Copied(data, cfg.maxBytes)))
            && (r.Ok? && env.linkFault.None? ==>
                  r.value !in Entries(MakeDirs(old(disk.tree), target.value), target.value))
            && (!cfg.readonly && target.Ok? ==> r == RelOutcome(old(disk.tree), cfg, target.value, filename, data, env))
            && (r.Err? && target.Ok? ==> exists made :: OnlyMade(old(disk.tree), disk.tree, target.value, made))
    ensures var target := RelTarget(old(disk.tree), cfg, baseDir, relPath);
            relDir == if !cfg.readonly && target.Ok? && CanMake(old(disk.tree), target.value, env)
                      then Unsplit(SanitizedParts(Split(relPath))) else ""
    ensures r.Ok? ==> !CopyFails(data, cfg.maxBytes) && |Copied(data, cfg.maxBytes)| <= cfg.maxBytes
    ensures r.Ok? ==> NameFor(r.value, SanitizeFilename(filename)) && ExtAllowed(r.value, cfg.allowed)
    ensures r.Ok? ==> Plain(r.value) && '\0' !in r.value
  {
    ghost var t := disk.tree;
    ghost var target := RelTarget(t, cfg, baseDir, relPath);
    if target.Ok? {
      NothingMade(t, target.value);
    }
    if cfg.readonly {
      return Err(ReadonlyMode), "";
    }
    if relPath == "" {
      return Err(InvalidRelPath), "";
    }
    var dirs := SanitizeParts(Split(relPath));
    if |dirs| == 0 || |dirs| > MAX_REL_PATH_DEPTH {
      return Err(InvalidRelPath), "";
    }
    var reached;
    r, reached := MakeAndWrite(disk, cfg, Join(baseDir, Unsplit(dirs)), filename, data, env);
    relDir := if reached then Unsplit(dirs) else "";
  }

  // In a directory that is there only the extension is left to check.
  lemma PrecheckMade(t: Inode, cfg: Settings, relDir: string, filename: string, p: Path)
    requires t.Dir? && !cfg.readonly && SafeTarget(t, cfg.site.Root(), relDir) == Ok(p) && IsDir(t, p)
    ensures Precheck(t, cfg, relDir, filename)
            == if ExtAllowed(SanitizeFilename(filename), cfg.allowed) then Ok(p) else Err(ExtNotAllowed)
  {
  }

  // The rest of it, once the path of the target directory is put together.
  method MakeAndWrite(disk: Disk, cfg: Settings, targetRelDir: string, filename: string, data: Reader, env: Env)
    returns (r: Result<string, FsError>, reached: bool)
    requires disk.tree.Dir? && cfg.Valid() && env.Valid() && !cfg.readonly
    modifies disk
    ensures disk.tree.Dir?
    ensures var target := SafeTarget(old(disk.tree), cfg.site.Root(), targetRelDir);
            && (target.Err? ==> r == Err(target.error) && disk.tree == old(disk.tree) && !reached)
            && (r.Ok? ==> Makeable(old(disk.tree), target.value) &&
                          Stores(MakeDirs(old(disk.tree), target.value), disk.tree,
                                 target.value, r.value, Copied(data, cfg.maxBytes)))
            && (r.Ok? && env.linkFault.None? ==>
                  r.value !in Entries(MakeDirs(old(disk.tree), target.value), target.value))
            && (target.Ok? ==> r == RelOutcome(old(disk.tree), cfg, target.value, filename, data, env))
            && (target.Ok? ==> reached == CanMake(old(disk.tree), target.value, env))
            && (r.Err? && target.Ok? ==> exists made :: OnlyMade(old(disk.tree), disk.tree, target.value, made))
    ensures r.Ok? ==> !CopyFails(data, cfg.maxBytes) && |Copied(data, cfg.maxBytes)| <= cfg.maxBytes
    ensures r.Ok? ==> NameFor(r.value, SanitizeFilename(filename)) && ExtAllowed(r.value, cfg.allowed)
    ensures r.Ok? ==> Plain(r.value) && '\0' !in r.value
  {
    ghost var t := disk.tree;
    var safe := SafePath(disk.tree, cfg.site, targetRelDir);
    if safe.Err? {
      return Err(safe.error), false;
    }
    ghost var p := SafeTarget(t, cfg.site.Root(), targetRelDir).value;
    JailSound(t, cfg.site.Root(), targetRelDir);
    ComponentsRender(p);
    SafeTargetJailed(t, cfg.site.Root(), targetRelDir);
    ghost var made: nat;
    var ok;
    ok, made := disk.MkdirAll(Components(safe.value), env.mkdirFails);
    assert OnlyMade(t, disk.tree, p, made);
    if !ok {
      return Err(CreateDirError), false;
    }
    assert p[..|p|] == p;
    MakeDirsExtends(t, p);
    RevalidationAgrees(t, disk.tree, cfg.site.Root(), targetRelDir);
    PrecheckMade(disk.tree, cfg, targetRelDir, filename, p);
    r := SafeWriteFile(disk, cfg, targetRelDir, filename, data, env);
    reached := true;
    if r.Err? {
      assert OnlyMade(t, disk.tree, p, |p|);
    }
  }

  // t' is t with the directories along the first `made` components of p.
  predicate OnlyMade(t: Inode, t': Inode, p: Path, made: nat)
    requires t.Dir?
  {
    made <= |p| && Makeable(t, p[..made]) && t' == MakeDirs(t, p[..made])
  }

  lemma NothingMade(t: Inode, p: Path)
    requires t.Dir?
    ensures OnlyMade(t, t, p, 0)
  {
    assert p[..0][..0] == [];
  }

  // A failed directory upload changes no file and no link, and every directory
  // it adds is on the way to the target.
  lemma OnlyMadeTouchesNoFile(t: Inode, t': Inode, p: Path, made: nat, q: Path)
    requires t.Dir? && OnlyMade(t, t', p, made)
    ensures Exists(t, q) && !IsDir(t, q) ==> Lookup(t', q) == Lookup(t, q)
    ensures Exists(t', q) && !IsDir(t', q) ==> Lookup(t', q) == Lookup(t, q)
    ensures Exists(t', q) && !Exists(t, q) ==> q <= p && IsDir(t', q)
    ensures IsDir(t, q) ==> IsDir(t', q)
  {
    MakeDirsLookup(t, p[..made], q);
    if q <= p[..made] {
      assert q <= p;
      assert p[..made][..|q|] == q;
    }
  }

  // ---- CreateDirectory ----

  // The name is a link that SafePath refuses: it leads out of the jail, or to a
  // place that resolution cannot reach.
  predicate LeadsOut(t: Inode, r: Path, relParent: string, name: string)
    requires AllPlain(r)
  {
    var found := Resolve(t, Normalize(r, Split(relParent)) + [name]);
    !found.NotExist? && !(found.Found? && Within(found.path, r))
  }

  // Where the new directory is to be made: under its own name, if that is free,
  // else at something that exists.
  lemma NewDirTarget(t: Inode, root: Path, relParent: string, name: string)
    requires t.Dir? && AllPlain(root) && SafeTarget(t, root, relParent).Ok? && Plain(name) && '\0' !in name
    requires IsDir(t, SafeTarget(t, root, relParent).value)
    requires |Join(relParent, name)| <= MAX_PATH_LENGTH && ResolvedRoot(t, root) != []
    ensures var p, s := SafeTarget(t, root, relParent).value, SafeTarget(t, root, Join(relParent, name));
            if !IsLink(t, p + [name]) then s == Ok(p + [name])
            else if LeadsOut(t, ResolvedRoot(t, root), relParent, name) then s == Err(PathTraversal)
            else s.Ok? && Exists(t, s.value)
  {
    ChildTarget(t, root, relParent, name);
    ResolvedExists(t, Normalize(ResolvedRoot(t, root), Split(relParent)) + [name]);
  }

  lemma ResolvedExists(t: Inode, p: Path)
    requires t.Dir? && SlashFree(p)
    ensures Resolve(t, p).Found? ==> Exists(t, Resolve(t, p).path)
  {
    WalkFindsCanonical(t, [], p, EVAL_LINKS);
  }

  // What is at the name in the parent directory.
  lemma NewDirEntry(t: Inode, p: Path, name: string)
    requires IsDir(t, p)
    ensures Parent(p + [name]) == p && (name in Entries(t, p) <==> Exists(t, p + [name]))
    ensures name in Entries(t, p) ==> (Entries(t, p)[name].Link? <==> IsLink(t, p + [name]))
    ensures name !in Entries(t, p) ==> !IsLink(t, p + [name])
  {
    LookupChild(t, p, name);
  }

  // Go's CreateDirectory. It succeeds exactly when nothing has the name yet, and
  // then it adds one empty directory, of that name, to the parent. A taken name is
  // reported as such, unless it is a link that leads out.
  method CreateDirectory(disk: Disk, cfg: Settings, relParentPath: string, name: string, mkdirFails: bool)
    returns (r: Result<string, FsError>)
    requires disk.tree.Dir? && cfg.Valid()
    modifies disk
    ensures r.Err? ==> disk.tree == old(disk.tree)
    ensures r.Ok? ==> r.value == SanitizeFilename(name)
    ensures var t, sanitized := old(disk.tree), SanitizeFilename(name);
            var parent := CheckDir(t, SafeTarget(t, cfg.site.Root(), relParentPath), CreateDirError);
            var newRel := Join(relParentPath, sanitized);
            && (cfg.readonly ==> r == Err(ReadonlyMode))
            && (!cfg.readonly && parent.Err? ==> r == Err(parent.error))
            && (r.Ok? ==> sanitized !in Entries(t, parent.value) &&
                          disk.tree == Replace(t, parent.value, Entries(t, parent.value)[sanitized := Dir(map[])]))
            && (!cfg.readonly && parent.Ok? && |newRel| > MAX_PATH_LENGTH ==> r == Err(PathTooLong))
            && (!cfg.readonly && parent.Ok? && |newRel| <= MAX_PATH_LENGTH && ResolvedRoot(t, cfg.site.Root()) == [] ==>
                 r == Err(PathTraversal))
            && (!cfg.readonly && parent.Ok? && |newRel| <= MAX_PATH_LENGTH
                && ResolvedRoot(t, cfg.site.Root()) != [] ==>
                 && (sanitized !in Entries(t, parent.value) ==>
                       r == if mkdirFails then Err(CreateDirError) else Ok(sanitized))
                 && (sanitized in Entries(t, parent.value) ==>
                       r == if Entries(t, parent.value)[sanitized].Link?
                               && LeadsOut(t, ResolvedRoot(t, cfg.site.Root()), relParentPath, sanitized)
                            then Err(PathTraversal) else Err(DirExists)))
  {
    if cfg.readonly {
      return Err(ReadonlyMode);
    }
    ghost var t, root := disk.tree, cfg.site.Root();
    var sanitized := SanitizeFilename(name);
    SafeNameIsPlain(sanitized);
    var parent := OpenDir(disk.tree, cfg.site, relParentPath, CreateDirError);
    if parent.Err? {
      return Err(parent.error);
    }
    ghost var p := parent.value;
    var newRelPath := Join(relParentPath, sanitized);
    var safe := SafePath(disk.tree, cfg.site, newRelPath);
    NewDirEntry(t, p, sanitized);
    if |newRelPath| <= MAX_PATH_LENGTH && ResolvedRoot(t, root) != [] {
      NewDirTarget(t, root, relParentPath, sanitized);
    } else if |newRelPath| <= MAX_PATH_LENGTH {
      ChildTarget(t, root, relParentPath, sanitized);
    }
    if safe.Err? {
      return Err(safe.error);
    }
    JailSound(t, root, newRelPath);
    ComponentsRender(SafeTarget(t, root, newRelPath).value);
    var made := disk.Mkdir(Components(safe.value), mkdirFails);
    if made == AlreadyExists {
      return Err(DirExists);
    }
    if made == Failed {
      return Err(CreateDirError);
    }
    return Ok(sanitized);
  }
}
