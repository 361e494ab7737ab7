// The write pipeline: temp file, hard link into place, rename as a fallback.
module WritePipeline {
  import opened Paths
  import opened FileTree
  import opened Errors
  import opened Jail
  import opened Names
  import opened Disks

  const MAX_INT64: int := 0x7FFF_FFFF_FFFF_FFFF
  const MIN_INT64: int := -0x8000_0000_0000_0000
  const MAX_REL_PATH_DEPTH: nat := 32

  // The server's settings for uploads.
  datatype Settings = Settings(site: Site, maxBytes: int, allowed: seq<string>, readonly: bool) {
    predicate Valid() {
      site.Valid() && MIN_INT64 <= maxBytes <= MAX_INT64
    }
  }

  // An upload's reader: it delivers these bytes and then ends or fails.
  datatype Reader = Reader(bytes: seq<bv8>, fails: bool)

  // What the operating system and the clock contribute to one write.
  datatype Env = Env(
    tempName: string,
    copyFails: bool, closeFails: bool, chmodFails: bool, renameFails: bool,
    linkFault: Option<nat>, // the attempt at which os.Link fails with something other than "exists"
    stamps: seq<string>,    // the timestamps of the collision names
    fallbackStamp: string,  // the timestamp atomicPlaceRename takes
    mkdirFails: set<Path>) {
    predicate Valid() {
      && Plain(tempName) && |stamps| == COLLISION_MAX_RETRIES
      && (forall i :: 0 <= i < |stamps| ==> IsStamp(stamps[i])) && IsStamp(fallbackStamp)
    }

    // Nothing fails but for what is on the disk.
    predicate Quiet() {
      !copyFails && !closeFails && !chmodFails && !renameFails && linkFault.None? && mkdirFails == {}
    }
  }

  // ---- Copying with a limit ----

  // maxBytes+1 in 64-bit arithmetic
  function CopyLimit(maxBytes: int): int {
    if maxBytes == MAX_INT64 then MIN_INT64 else maxBytes + 1
  }

  // What io.Copy takes from the reader through io.LimitReader.
  function Copied(data: Reader, maxBytes: int): (c: seq<bv8>) {
    var limit := CopyLimit(maxBytes);
    if limit <= 0 then [] else if |data.bytes| >= limit then data.bytes[..limit] else data.bytes
  }

  // The copy meets the reader's error only if the limit does not stop it first.
  predicate CopyFails(data: Reader, maxBytes: int) {
    data.fails && |data.bytes| < CopyLimit(maxBytes)
  }

  // A copy that neither fails nor overflows has taken the whole payload and the
  // payload is within the limit. At the largest 64-bit limit the extra byte
  // wraps around, nothing is copied, and an empty file is taken for the upload.
  lemma WholePayloadCopied(data: Reader, maxBytes: int)
    requires MIN_INT64 <= maxBytes <= MAX_INT64
    requires !CopyFails(data, maxBytes) && |Copied(data, maxBytes)| <= maxBytes
    ensures Copied(data, maxBytes) == data.bytes <==> maxBytes < MAX_INT64 || data.bytes == []
    ensures maxBytes < MAX_INT64 ==> |data.bytes| <= maxBytes && !data.fails
  {
  }

  lemma LargestLimitStoresNothing()
    ensures var upload := Reader([1], false);
            !CopyFails(upload, MAX_INT64) && |Copied(upload, MAX_INT64)| <= MAX_INT64 &&
            Copied(upload, MAX_INT64) != upload.bytes
  {
  }

  // ---- Placing the temp file ----

  function FirstFree(taken: set<string>, names: seq<string>): (k: Option<nat>)
    ensures k.Some? ==> k.value < |names| && names[k.value] !in taken
                        && forall j :: 0 <= j < k.value ==> names[j] in taken
    ensures k.None? ==> forall j :: 0 <= j < |names| ==> names[j] in taken
  {
    if names == [] then None
    else if names[0] !in taken then Some(0)
    else match FirstFree(taken, names[1..]) case Some(k) => Some(k + 1) case None => None
  }

  // Every name before the faulty attempt is taken, so the attempt is made.
  predicate UsesFallback(env: Env, taken: set<string>, names: seq<string>) {
    env.linkFault.Some? && env.linkFault.value < |names|
    && forall j :: 0 <= j < env.linkFault.value ==> names[j] in taken
  }

  // What os.Stat of the desired name sees in the fallback: not there, which is
  // also what a dangling link looks like.
  predicate SeemsFree(t: Inode, dir: Path, name: string) {
    Stat(t, dir + [name]) == NotExist
  }

  function FallbackName(t: Inode, dir: Path, desired: string, env: Env): string {
    if SeemsFree(t, dir, desired) then desired else Stamped(env.fallbackStamp, desired)
  }

  // What the fallback answers: it fails only if the rename does.
  function RenameOutcome(t: Inode, dir: Path, desired: string, env: Env): Result<string, FsError>
    requires IsDir(t, dir)
  {
    var m, name := Entries(t, dir), FallbackName(t, dir, desired, env);
    if env.renameFails || (name in m && m[name].Dir?) then Err(RenameFileError) else Ok(name)
  }

  // What placing answers: the first free name, unless a link fails for another
  // reason before one is found.
  function PlaceOutcome(t: Inode, dir: Path, desired: string, env: Env): Result<string, FsError>
    requires IsDir(t, dir)
  {
    var taken, names := Entries(t, dir).Keys, Candidates(desired, env.stamps);
    if UsesFallback(env, taken, names) then RenameOutcome(t, dir, desired, env)
    else match FirstFree(taken, names) case Some(k) => Ok(names[k]) case None => Err(FileExists)
  }

  // Moving the temp file to a name, as a change of directory entries.
  function Moved(m: map<string, Inode>, temp: string, name: string): map<string, Inode>
    requires temp in m
  {
    (m - {temp})[name := m[temp]]
  }

  // Go's atomicPlaceRename
  method AtomicPlaceRename(disk: Disk, dir: Path, desired: string, temp: string, env: Env)
    returns (r: Result<string, FsError>)
    requires IsDir(disk.tree, dir) && temp in Entries(disk.tree, dir)
    modifies disk
    ensures r == RenameOutcome(old(disk.tree), dir, desired, env)
    ensures r.Err? ==> disk.tree == old(disk.tree)
    ensures r.Ok? ==> var m := Entries(old(disk.tree), dir);
                      disk.tree == Replace(old(disk.tree), dir, Moved(m, temp, r.value))
  {
    var name := desired;
    if Stat(disk.tree, dir + [desired]) != NotExist {
      name := Stamped(env.fallbackStamp, desired);
    }
    if env.renameFails {
      return Err(RenameFileError);
    }
    var ok := disk.Rename(dir, temp, name);
    return if ok then Ok(name) else Err(RenameFileError);
  }

  // Whether an entry other than the temp file's is gone or holds something else.
  ghost predicate Disturbs(before: map<string, Inode>, after: map<string, Inode>, temp: string) {
    exists n :: n in before && n != temp && !KeepsEntry(before, after, n)
  }

  predicate KeepsEntry(before: map<string, Inode>, after: map<string, Inode>, n: string)
    requires n in before
  {
    n in after && after[n] == before[n]
  }

  // The rename fallback does not check the name it renames onto. It succeeds and
  // another entry is lost exactly when the rename does not fail and either the
  // desired name is a dangling link, or the desired name is taken and the stamped
  // one names something else that is no directory.
  lemma FallbackReplacesExactly(t: Inode, dir: Path, desired: string, temp: string, env: Env)
    requires t.Dir? && IsDir(t, dir) && AllPlain(dir) && Plain(desired)
    requires temp in Entries(t, dir) && Entries(t, dir)[temp].File?
    ensures var m, r := Entries(t, dir), RenameOutcome(t, dir, desired, env);
            var stamped := Stamped(env.fallbackStamp, desired);
            r.Ok? && Disturbs(m, Moved(m, temp, r.value), temp) <==>
              !env.renameFails &&
              if SeemsFree(t, dir, desired) then IsLink(t, dir + [desired])
              else stamped in m && stamped != temp && !m[stamped].Dir? && m[stamped] != m[temp]
  {
    SeemsFreeMeans(t, dir, desired);
    LookupChild(t, dir, desired);
    var m, name := Entries(t, dir), FallbackName(t, dir, desired, env);
    var after := Moved(m, temp, name);
    if name in m && name != temp && m[name] != m[temp] {
      assert !KeepsEntry(m, after, name);
    }
    assert forall n :: n in m && n != temp && n != name ==> KeepsEntry(m, after, n);
  }

  // A name that seems free is free or a link.
  lemma SeemsFreeMeans(t: Inode, dir: Path, name: string)
    requires t.Dir? && IsDir(t, dir) && AllPlain(dir) && Plain(name)
    ensures SeemsFree(t, dir, name) ==> name !in Entries(t, dir) || Entries(t, dir)[name].Link?
    ensures name !in Entries(t, dir) ==> SeemsFree(t, dir, name)
  {
    LookupChild(t, dir, name);
    var p := dir + [name];
    if Exists(t, p) && !IsLink(t, p) {
      WalkCanonical(t, p, KERNEL_LINKS);
    }
    if name !in Entries(t, dir) {
      WalkCanonical(t, dir, KERNEL_LINKS);
      WalkConcat(t, [], dir, [name], KERNEL_LINKS);
    }
  }

  // Links that work only up to a first free name, as where hard links are not
  // supported: the desired name is taken, and linking to the next one fails.
  predicate NoHardLinks(env: Env) {
    env.Valid() && !env.renameFails && env.linkFault == Some(1)
  }

  // A concrete loss: an upload named like a dangling link destroys the link.
  lemma FallbackDestroysLink(env: Env)
    requires NoHardLinks(env)
    ensures var m := map["a" := Link("b"), "t" := File([1])];
            && PlaceOutcome(Dir(m), [], "a", env) == Ok("a")
            && Stamped(env.stamps[0], "a") !in m
            && Moved(m, "t", "a") == map["a" := File([1])]
  {
    var m := map["a" := Link("b"), "t" := File([1])];
    var t := Dir(m);
    assert |Stamped(env.stamps[0], "a")| == STAMP_LENGTH + 2;
    LookupChild(t, [], "a");
    LookupChild(t, [], "b");
    SplitSlashFree("b");
    assert Split("b") + ["a"][1..] == ["b"];
    assert Walk(t, [], ["b"], KERNEL_LINKS - 1) == NotExist;
    assert SeemsFree(t, [], "a");
    assert Candidates("a", env.stamps)[0] in m;
    assert Moved(m, "t", "a") == map["a" := File([1])];
  }

  // Another: the fallback's timestamp is taken one second later, and an older
  // upload of that second is destroyed.
  lemma FallbackDestroysUpload(env: Env)
    requires NoHardLinks(env) && env.stamps[0] != env.fallbackStamp
    ensures var old' := Stamped(env.fallbackStamp, "a");
            var m := map["a" := File([1]), old' := File([2]), "t" := File([3])];
            && PlaceOutcome(Dir(m), [], "a", env) == Ok(old')
            && Stamped(env.stamps[0], "a") !in m
            && Moved(m, "t", old') == map["a" := File([1]), old' := File([3])]
  {
    var old' := Stamped(env.fallbackStamp, "a");
    var m := map["a" := File([1]), old' := File([2]), "t" := File([3])];
    var t := Dir(m);
    var next := Stamped(env.stamps[0], "a");
    assert |next| == |old'| == STAMP_LENGTH + 2;
    assert next[..STAMP_LENGTH] == env.stamps[0] && old'[..STAMP_LENGTH] == env.fallbackStamp;
    LookupChild(t, [], "a");
    assert Walk(t, [], ["a"], KERNEL_LINKS) == Found(["a"], KERNEL_LINKS);
    assert !SeemsFree(t, [], "a");
    assert Candidates("a", env.stamps)[0] in m;
    assert Moved(m, "t", old') == map["a" := File([1]), old' := File([3])];
  }

  // Go's atomicPlace: links the temp file under the first name that is free.
  method AtomicPlace(disk: Disk, dir: Path, desired: string, temp: string, env: Env)
    returns (r: Result<string, FsError>)
    requires IsDir(disk.tree, dir) && temp in Entries(disk.tree, dir) && env.Valid()
    modifies disk
    ensures r == PlaceOutcome(old(disk.tree), dir, desired, env)
    ensures r.Err? ==> disk.tree == old(disk.tree)
    ensures r.Ok? ==> var m := Entries(old(disk.tree), dir);
                      disk.tree == Replace(old(disk.tree), dir, Moved(m, temp, r.value))
  {
    var candidates := Candidates(desired, env.stamps);
    ghost var m := Entries(disk.tree, dir);
    for i := 0 to |candidates|
      invariant disk.tree == old(disk.tree)
      invariant forall j :: 0 <= j < i ==> candidates[j] in m
      invariant env.linkFault.Some? ==> i <= env.linkFault.value || |candidates| <= env.linkFault.value
    {
      if env.linkFault == Some(i) {
        r := AtomicPlaceRename(disk, dir, desired, temp, env);
        return;
      }
      var linked := disk.Link(dir, temp, candidates[i]);
      if linked {
        ghost var t, m' := old(disk.tree), m[candidates[i] := m[temp]];
        ReplaceEntries(t, dir, m');
        ReplaceTwice(t, dir, m', m' - {temp});
        disk.Remove(dir, temp);
        assert m' - {temp} == Moved(m, temp, candidates[i]);
        return Ok(candidates[i]);
      }
    }
    return Err(FileExists);
  }

  // ---- SafeWriteFile ----

  // Where the operating system goes for a path string SafePath returned.
  function Components(s: string): Path {
    var cs := Split(s)[1..];
    if cs == [""] then [] else cs
  }

  lemma ComponentsRender(p: Path)
    requires AllPlain(p)
    ensures Components(Render(p)) == p
  {
    SplitRender(p);
    assert Split(Render(p))[1..] == if p == [] then [""] else p;
    assert p == [""] ==> Plain(p[0]);
  }

  // What os.Stat says of the directory SafePath answered with.
  function CheckDir(t: Inode, target: Result<Path, FsError>, missing: FsError): Result<Path, FsError> {
    match target
    case Err(e) => Err(e)
    case Ok(p) => if IsDir(t, p) then Ok(p)
                  else if Canonical(t, p) then Err(NotADirectory)
                  else Err(missing)
  }

  // SafePath followed by os.Stat and the directory test.
  method OpenDir(t: Inode, site: Site, relDir: string, missing: FsError) returns (r: Result<Path, FsError>)
    requires t.Dir? && site.Valid()
    ensures r.Err? ==> r.error in {PathTooLong, PathTraversal, PathResolution, NotADirectory, missing}
    ensures r == CheckDir(t, SafeTarget(t, site.Root(), relDir), missing)
    ensures var target := SafeTarget(t, site.Root(), relDir);
            && (target.Err? ==> r == Err(target.error))
            && (target.Ok? && IsDir(t, target.value) ==> r == Ok(target.value))
            && (target.Ok? && Exists(t, target.value) && Lookup(t, target.value).value.File? ==> r == Err(NotADirectory))
            && (target.Ok? && (!Exists(t, target.value) || IsLink(t, target.value)) ==> r == Err(missing))
    ensures r.Ok? ==> IsDir(t, r.value) && AllPlain(r.value)
  {
    var safe := SafePath(t, site, relDir);
    if safe.Err? {
      return Err(safe.error);
    }
    SafeTargetStat(t, site.Root(), relDir);
    JailSound(t, site.Root(), relDir);
    ComponentsRender(SafeTarget(t, site.Root(), relDir).value);
    var dir := Components(safe.value);
    var info := Stat(t, dir);
    if !info.Found? {
      return Err(missing);
    }
    if !IsDir(t, info.path) {
      return Err(NotADirectory);
    }
    return Ok(dir);
  }

  // What is checked before anything is written.
  function Precheck(t: Inode, cfg: Settings, relDir: string, filename: string): Result<Path, FsError>
    requires t.Dir?
  {
    if cfg.readonly then Err(ReadonlyMode)
    else if !ExtAllowed(SanitizeFilename(filename), cfg.allowed) then Err(ExtNotAllowed)
    else CheckDir(t, SafeTarget(t, cfg.site.Root(), relDir), WriteFileError)
  }

  // t' is t with the file `name` in the directory dir, and nothing else changed.
  predicate Stores(t: Inode, t': Inode, dir: Path, name: string, content: seq<bv8>) {
    IsDir(t, dir) && t' == Replace(t, dir, Entries(t, dir)[name := File(content)])
  }

  // The names a file may end up under.
  ghost predicate NameFor(name: string, desired: string) {
    name == desired || exists stamp :: IsStamp(stamp) && name == Stamped(stamp, desired)
  }

  // What a write into dir answers.
  function WriteOutcome(t: Inode, dir: Path, cfg: Settings, desired: string, data: Reader, env: Env)
    : Result<string, FsError>
    requires IsDir(t, dir)
  {
    var m, content := Entries(t, dir), Copied(data, cfg.maxBytes);
    if env.tempName in m then Err(TempFileError)
    else if CopyFails(data, cfg.maxBytes) || env.copyFails then Err(WriteFileError)
    else if |content| > cfg.maxBytes then Err(FileTooLarge)
    else if env.closeFails || env.chmodFails then Err(WriteFileError)
    else PlaceOutcome(WithTemp(t, dir, env.tempName, content), dir, desired, env)
  }

  // The tree while the temp file is there.
  function WithTemp(t: Inode, dir: Path, temp: string, content: seq<bv8>): (t': Inode)
    requires IsDir(t, dir)
    ensures IsDir(t', dir) && Entries(t', dir) == Entries(t, dir)[temp := File(content)]
  {
    ReplaceEntries(t, dir, Entries(t, dir)[temp := File(content)]);
    Replace(t, dir, Entries(t, dir)[temp := File(content)])
  }

  // When nothing fails but for what is there, a write succeeds exactly when its
  // temp name is free, the reader delivers the whole payload, the payload is
  // within the limit, and one of the names to try is free.
  lemma QuietWriteSucceedsExactly(t: Inode, dir: Path, cfg: Settings, desired: string, data: Reader, env: Env)
    requires IsDir(t, dir) && env.Quiet() && 0 <= cfg.maxBytes < MAX_INT64
    ensures var taken := Entries(t, dir).Keys + {env.tempName};
            WriteOutcome(t, dir, cfg, desired, data, env).Ok? <==>
              && env.tempName !in Entries(t, dir) && !data.fails && |data.bytes| <= cfg.maxBytes
              && exists name :: name in Candidates(desired, env.stamps) && name !in taken
  {
    var names := Candidates(desired, env.stamps);
    var placed := WithTemp(t, dir, env.tempName, Copied(data, cfg.maxBytes));
    assert Entries(placed, dir).Keys == Entries(t, dir).Keys + {env.tempName};
    var first := FirstFree(Entries(placed, dir).Keys, names);
    if first.Some? {
      assert names[first.value] in names;
    }
  }

  // A payload over the limit is what is refused as too large, whatever else would
  // have gone wrong after the copy.
  lemma TooLargeExactly(t: Inode, dir: Path, cfg: Settings, desired: string, data: Reader, env: Env)
    requires IsDir(t, dir) && 0 <= cfg.maxBytes < MAX_INT64 && env.tempName !in Entries(t, dir) && !env.copyFails
    ensures WriteOutcome(t, dir, cfg, desired, data, env) == Err(FileTooLarge) <==> |data.bytes| > cfg.maxBytes
  {
  }

  // The collision names are taken within one second as a rule and then are all
  // the same: the desired name is used if it is free, else the stamped one if
  // that is free, else the write fails.
  lemma SameStampPlaces(t: Inode, dir: Path, desired: string, env: Env, stamp: string)
    requires IsDir(t, dir) && env.Valid() && env.linkFault.None?
    requires forall i :: 0 <= i < |env.stamps| ==> env.stamps[i] == stamp
    ensures var m := Entries(t, dir);
            PlaceOutcome(t, dir, desired, env) ==
              if desired !in m then Ok(desired)
              else if Stamped(stamp, desired) !in m then Ok(Stamped(stamp, desired))
              else Err(FileExists)
  {
    var names := Candidates(desired, env.stamps);
    var first := FirstFree(Entries(t, dir).Keys, names);
    assert names[1] == Stamped(env.stamps[0], desired);
    if first.Some? && first.value > 0 {
      assert names[first.value] == Stamped(stamp, desired);
    }
  }

  // Where links fail only because a name is taken, placing fails exactly when the
  // desired name and all ten stamped ones are.
  lemma ExistsExactly(t: Inode, dir: Path, desired: string, env: Env)
    requires IsDir(t, dir) && env.Valid() && env.linkFault.None?
    ensures var m := Entries(t, dir);
            PlaceOutcome(t, dir, desired, env) == Err(FileExists) <==>
              desired in m && forall i :: 0 <= i < 10 ==> Stamped(env.stamps[i], desired) in m
  {
    var m, names := Entries(t, dir), Candidates(desired, env.stamps);
    assert forall i :: 0 <= i < 10 ==> names[i + 1] == Stamped(env.stamps[i], desired);
    var first := FirstFree(m.Keys, names);
    if first.Some? {
      assert first.value == 0 || names[first.value] == Stamped(env.stamps[first.value - 1], desired);
    }
  }

  // Go's SafeWriteFile. On success exactly one file is added, holding what was
  // copied; on any error the disk is as before.
  method SafeWriteFile(disk: Disk, cfg: Settings, relDir: string, filename: string, data: Reader, env: Env)
    returns (r: Result<string, FsError>)
    requires disk.tree.Dir? && cfg.Valid() && env.Valid()
    modifies disk
    ensures disk.tree.Dir?
    ensures r.Err? ==> disk.tree == old(disk.tree)
    ensures var pre := Precheck(old(disk.tree), cfg, relDir, filename);
            && (pre.Err? ==> r == Err(pre.error))
            && (r.Ok? ==> Stores(old(disk.tree), disk.tree, pre.value, r.value, Copied(data, cfg.maxBytes)))
            && (pre.Ok? ==> r == WriteOutcome(old(disk.tree), pre.value, cfg, SanitizeFilename(filename), data, env))
            && (r.Ok? && env.linkFault.None? ==> r.value !in Entries(old(disk.tree), pre.value))
    ensures r.Ok? ==> !CopyFails(data, cfg.maxBytes) && |Copied(data, cfg.maxBytes)| <= cfg.maxBytes
    ensures r.Ok? ==> NameFor(r.value, SanitizeFilename(filename)) && ExtAllowed(r.value, cfg.allowed)
    ensures r.Ok? ==> Plain(r.value) && '\0' !in r.value
    ensures cfg.readonly <==> r == Err(ReadonlyMode)
    ensures !cfg.readonly && AllAscii(cfg.allowed) ==>
              (r == Err(ExtNotAllowed) <==> !Listed(SanitizeFilename(filename), cfg.allowed))
    ensures r.Ok? ==> !env.copyFails && !env.closeFails && !env.chmodFails
  {
    if cfg.readonly {
      return Err(ReadonlyMode);
    }
    var sanitized := SanitizeFilename(filename);
    SafeNameIsAscii(sanitized);
    var extOk := ValidateExtension(sanitized, cfg.allowed);
    if !extOk {
      return Err(ExtNotAllowed);
    }
    var target := OpenDir(disk.tree, cfg.site, relDir, WriteFileError);
    if target.Err? {
      return Err(target.error);
    }
    r := WriteInto(disk, cfg, target.value, sanitized, data, env);
  }

  // The second half of SafeWriteFile: the steps inside the target directory.
  method WriteInto(disk: Disk, cfg: Settings, dir: Path, desired: string, data: Reader, env: Env)
    returns (r: Result<string, FsError>)
    requires disk.tree.Dir? && IsDir(disk.tree, dir) && SafeName(desired) && env.Valid()
    modifies disk
    ensures disk.tree.Dir?
    ensures r.Err? ==> disk.tree == old(disk.tree)
    ensures r.Ok? ==> Stores(old(disk.tree), disk.tree, dir, r.value, Copied(data, cfg.maxBytes))
    ensures r == WriteOutcome(old(disk.tree), dir, cfg, desired, data, env)
    ensures r.Ok? && env.linkFault.None? ==> r.value !in Entries(old(disk.tree), dir)
    ensures r.Ok? ==> !CopyFails(data, cfg.maxBytes) && |Copied(data, cfg.maxBytes)| <= cfg.maxBytes
    ensures r.Ok? ==> NameFor(r.value, desired) && Ext(r.value) == Ext(desired)
    ensures r.Ok? ==> Plain(r.value) && '\0' !in r.value
    ensures r.Ok? ==> !env.copyFails && !env.closeFails && !env.chmodFails
    ensures r.Err? ==> r.error in {TempFileError, WriteFileError, FileTooLarge, FileExists, RenameFileError}
    ensures r == Err(TempFileError) <==> env.tempName in Entries(old(disk.tree), dir)
    ensures CopyFails(data, cfg.maxBytes) ==> r in {Err(TempFileError), Err(WriteFileError)}
  {
    var temp := env.tempName;
    ghost var t := disk.tree;
    var created := disk.CreateTemp(dir, temp);
    if !created {
      return Err(TempFileError);
    }
    var content := Copied(data, cfg.maxBytes);
    TempFilled(t, dir, temp, content);
    disk.Append(dir, temp, content);
    TempRemoved(t, dir, temp, content);

    var failure: FsError;
    if CopyFails(data, cfg.maxBytes) || env.copyFails {
      failure := WriteFileError;
    } else if |content| > cfg.maxBytes {
      failure := FileTooLarge;
    } else if env.closeFails || env.chmodFails {
      failure := WriteFileError;
    } else {
      r := AtomicPlace(disk, dir, desired, temp, env);
      if r.Ok? {
        TempMoved(t, dir, temp, content, r.value);
        PlacedName(desired, env, r.value);
        return;
      }
      failure := r.error;
    }
    disk.Remove(dir, temp);
    return Err(failure);
  }

  lemma TempFilled(t: Inode, dir: Path, temp: string, content: seq<bv8>)
    requires IsDir(t, dir)
    ensures var m' := Entries(t, dir)[temp := File([])];
            var t' := Replace(t, dir, m');
            && IsDir(t', dir) && Entries(t', dir) == m'
            && Replace(t', dir, m'[temp := File([] + content)])
               == Replace(t, dir, Entries(t, dir)[temp := File(content)])
  {
    var m := Entries(t, dir);
    var m' := m[temp := File([])];
    ReplaceEntries(t, dir, m');
    ReplaceTwice(t, dir, m', m'[temp := File([] + content)]);
    assert [] + content == content;
    assert m'[temp := File(content)] == m[temp := File(content)];
  }

  // Removing the temp file gives the directory back.
  lemma TempRemoved(t: Inode, dir: Path, temp: string, content: seq<bv8>)
    requires IsDir(t, dir) && temp !in Entries(t, dir)
    ensures var m' := Entries(t, dir)[temp := File(content)];
            var t' := Replace(t, dir, m');
            && IsDir(t', dir) && Entries(t', dir) == m' && m'.Keys == Entries(t, dir).Keys + {temp}
            && Replace(t', dir, m' - {temp}) == t
  {
    var m := Entries(t, dir);
    var m' := m[temp := File(content)];
    ReplaceEntries(t, dir, m');
    ReplaceTwice(t, dir, m', m' - {temp});
    assert m' - {temp} == m;
    ReplaceSame(t, dir);
  }

  // Moving the temp file to its final name leaves one new file.
  lemma TempMoved(t: Inode, dir: Path, temp: string, content: seq<bv8>, name: string)
    requires IsDir(t, dir) && temp !in Entries(t, dir)
    ensures var m' := Entries(t, dir)[temp := File(content)];
            var t' := Replace(t, dir, m');
            && IsDir(t', dir)
            && Replace(t', dir, Moved(m', temp, name)) == Replace(t, dir, Entries(t, dir)[name := File(content)])
  {
    var m := Entries(t, dir);
    var m' := m[temp := File(content)];
    ReplaceTwice(t, dir, m', Moved(m', temp, name));
    assert Moved(m', temp, name) == m[name := File(content)];
  }

  // The name a file was placed under is the desired one or a stamped one.
  lemma PlacedName(desired: string, env: Env, name: string)
    requires env.Valid() && SafeName(desired)
    requires name in Candidates(desired, env.stamps) || name == Stamped(env.fallbackStamp, desired)
    ensures NameFor(name, desired) && Ext(name) == Ext(desired) && Plain(name) && '\0' !in name
  {
    SafeNameIsPlain(desired);
    var c := Candidates(desired, env.stamps);
    if name != desired {
      if name in c {
        var i :| 0 <= i < |c| && c[i] == name;
        StampedKeepsExtension(env.stamps[i - 1], desired);
      } else {
        StampedKeepsExtension(env.fallbackStamp, desired);
      }
    }
  }
}
