// The upload handler: one request, many files.
module UploadBatch {
  import opened Paths
  import opened FileTree
  import opened Errors
  import opened Jail
  import opened Names
  import opened Disks
  import opened WritePipeline
  import opened DirectoryWrites
  import Sequences

  // One file of the form, and what happens around it.
  datatype FilePart = FilePart(filename: string, opens: bool, data: Reader, env: Env)

  datatype UploadResult = UploadResult(originalName: string, finalName: string, size: nat, error: Option<FsError>)

  datatype AuditEntry = AuditEntry(path: string, size: Option<nat>, error: Option<FsError>)

  datatype Response =
    | Forbidden
    | NoFiles
    | Uploaded(results: seq<UploadResult>, uploaded: nat, failed: nat)

  // The Prometheus counters, as whole numbers.
  class Counters {
    var uploads: nat
    var bytes: nat
  }

  // ---- What becomes of one file ----

  // The directory a file is recorded under.
  function AuditDir(relPath: string, relDir: string): string {
    if relDir == "" then relPath else Join(relPath, Unsplit(SanitizedParts(Split(relDir))))
  }

  // Whether a write with a relpath gets past the checks of the path and MkdirAll.
  predicate ReachesDir(t: Inode, cfg: Settings, relPath: string, relDir: string, env: Env)
    requires t.Dir?
  {
    var target := RelTarget(t, cfg, relPath, relDir);
    target.Ok? && CanMake(t, target.value, env)
  }

  // The directory a file that failed is recorded under: the one it was meant for
  // if that was made, else the browsed one.
  function FailedDir(t: Inode, cfg: Settings, relPath: string, relDir: string, env: Env): string
    requires t.Dir?
  {
    if relDir != "" && ReachesDir(t, cfg, relPath, relDir, env) then AuditDir(relPath, relDir) else relPath
  }

  // The size read back through the jail; 0 if the path is refused or is no file.
  function SizeAt(t: Inode, root: Path, path: string): nat
    requires t.Dir? && AllPlain(root)
  {
    match SafeTarget(t, root, path)
    case Err(_) => 0
    case Ok(p) => if Exists(t, p) && Lookup(t, p).value.File? then |Lookup(t, p).value.data| else 0
  }

  // The file `name` was stored in the directory that `dir` names, made if need be.
  predicate Placed(t: Inode, t': Inode, root: Path, dir: string, name: string, content: seq<bv8>)
    requires t.Dir? && AllPlain(root)
  {
    var target := SafeTarget(t, root, dir);
    && target.Ok? && Makeable(t, target.value) && Plain(name) && '\0' !in name
    && Stores(MakeDirs(t, target.value), t', target.value, name, content)
  }

  // What the write of one file answers.
  function WriteResult(t: Inode, cfg: Settings, relPath: string, relDir: string,
                       filename: string, data: Reader, env: Env): Result<string, FsError>
    requires t.Dir?
  {
    if relDir == "" then
      match Precheck(t, cfg, relPath, filename)
      case Err(e) => Err(e)
      case Ok(p) => WriteOutcome(t, p, cfg, SanitizeFilename(filename), data, env)
    else
      match RelTarget(t, cfg, relPath, relDir)
      case Err(e) => Err(e)
      case Ok(p) => RelOutcome(t, cfg, p, filename, data, env)
  }

  ghost predicate OnlyDirsMade(t: Inode, t': Inode)
    requires t.Dir?
  {
    exists p: Path, made: nat :: OnlyMade(t, t', p, made)
  }

  function Target(t: Inode, cfg: Settings, dir: string): Path
    requires t.Dir?
  {
    var target := SafeTarget(t, cfg.site.Root(), dir);
    if target.Ok? then target.value else []
  }

  function NamesAt(t: Inode, p: Path): set<string> {
    if IsDir(t, p) then Entries(t, p).Keys else {}
  }

  // How a write may change the tree from t to t'.
  ghost predicate WriteEffect(cfg: Settings, relPath: string, relDir: string, filename: string,
                            data: Reader, env: Env, t: Inode, t': Inode, r: Result<string, FsError>)
    requires t.Dir?
  {
    var dir := AuditDir(relPath, relDir);
    && t'.Dir?
    && (r.Err? ==> OnlyDirsMade(t, t'))
    && (r.Ok? ==> Placed(t, t', cfg.site.Root(), dir, r.value, Copied(data, cfg.maxBytes)))
    && (r.Ok? ==> !CopyFails(data, cfg.maxBytes) && |Copied(data, cfg.maxBytes)| <= cfg.maxBytes)
    && (r.Ok? ==> NameFor(r.value, SanitizeFilename(filename)) && ExtAllowed(r.value, cfg.allowed))
    && (r.Ok? && env.linkFault.None? ==> r.value !in NamesAt(MakeDirs(t, Target(t, cfg, dir)), Target(t, cfg, dir)))
  }

  // What the write of a file of the batch answered.
  function Written(r: UploadResult): Result<string, FsError> {
    if r.error.None? then Ok(r.finalName) else Err(r.error.value)
  }

  // How a file of the batch may change the tree, and what is reported of it.
  ghost predicate FileStep(cfg: Settings, relPath: string, relDir: string, filename: string,
                           file: FilePart, t: Inode, t': Inode, r: UploadResult)
    requires t.Dir?
  {
    && t'.Dir? && r.originalName == file.filename
    && (!file.opens ==> t' == t && r.error == Some(WriteFileError))
    && (file.opens ==> WriteEffect(cfg, relPath, relDir, filename, file.data, file.env, t, t', Written(r)))
    && (r.error.Some? ==> r.finalName == "" && r.size == 0)
    && (r.error.None? ==> r.size == SizeAt(t', cfg.site.Root(), Join(AuditDir(relPath, relDir), r.finalName)))
  }

  // Which of the outcomes it is.
  predicate FileAnswer(cfg: Settings, relPath: string, relDir: string, filename: string,
                       file: FilePart, t: Inode, r: UploadResult)
    requires t.Dir?
  {
    file.opens ==> Written(r) == WriteResult(t, cfg, relPath, relDir, filename, file.data, file.env)
  }

  // An audit entry says of a file what the response says of it, under the path
  // the file went to or, failing, was meant for.
  predicate Records(entry: AuditEntry, r: UploadResult, t: Inode, cfg: Settings, relPath: string, relDir: string,
                    filename: string, env: Env)
    requires t.Dir?
  {
    && entry.error == r.error
    && (r.error.None? ==> entry.path == Join(AuditDir(relPath, relDir), r.finalName) && entry.size == Some(r.size))
    && (r.error.Some? ==>
          entry.path == Join(FailedDir(t, cfg, relPath, relDir, env), filename) && entry.size.None?)
  }

  method StatSize(t: Inode, site: Site, path: string) returns (size: nat)
    requires t.Dir? && site.Valid()
    ensures size == SizeAt(t, site.Root(), path)
  {
    size := 0;
    var safe := SafePath(t, site, path);
    if safe.Ok? {
      SafeTargetStat(t, site.Root(), path);
      JailSound(t, site.Root(), path);
      ComponentsRender(SafeTarget(t, site.Root(), path).value);
      var p := Components(safe.value);
      var info := Stat(t, p);
      if info.Found? && Lookup(t, info.path).value.File? {
        size := |Lookup(t, info.path).value.data|;
      }
    }
  }

  method WriteFlat(disk: Disk, cfg: Settings, relPath: string, filename: string, data: Reader, env: Env)
    returns (r: Result<string, FsError>)
    requires disk.tree.Dir? && cfg.Valid() && env.Valid() && !cfg.readonly
    modifies disk
    ensures WriteEffect(cfg, relPath, "", filename, data, env, old(disk.tree), disk.tree, r)
    ensures r == WriteResult(old(disk.tree), cfg, relPath, "", filename, data, env)
  {
    ghost var t := disk.tree;
    r := SafeWriteFile(disk, cfg, relPath, filename, data, env);
    NothingMade(t, []);
    if r.Ok? {
      var p := Precheck(t, cfg, relPath, filename).value;
      JailSound(t, cfg.site.Root(), relPath);
      MakeDirsExisting(t, p);
      CanonicalMakeable(t, p);
    }
  }

  method WriteNested(disk: Disk, cfg: Settings, relPath: string, relDir: string,
                     filename: string, data: Reader, env: Env)
    returns (r: Result<string, FsError>, actualRelDir: string)
    requires disk.tree.Dir? && cfg.Valid() && env.Valid() && !cfg.readonly && relDir != ""
    modifies disk
    ensures WriteEffect(cfg, relPath, relDir, filename, data, env, old(disk.tree), disk.tree, r)
    ensures r == WriteResult(old(disk.tree), cfg, relPath, relDir, filename, data, env)
    ensures actualRelDir == if ReachesDir(old(disk.tree), cfg, relPath, relDir, env)
                            then Unsplit(SanitizedParts(Split(relDir))) else ""
  {
    ghost var t := disk.tree;
    ghost var target := RelTarget(t, cfg, relPath, relDir);
    r, actualRelDir := SafeWriteFileWithRelPath(disk, cfg, relPath, relDir, filename, data, env);
    if target.Err? {
      NothingMade(t, []);
    } else if r.Err? {
      ghost var made :| OnlyMade(t, disk.tree, target.value, made);
    } else {
      assert Target(t, cfg, AuditDir(relPath, relDir)) == target.value;
    }
  }

  // A directory that was reached has a name, and a file that was written reached it.
  lemma MadeDirsNamed(t: Inode, cfg: Settings, relPath: string, relDir: string, filename: string, data: Reader, env: Env)
    requires t.Dir? && relDir != ""
    ensures ReachesDir(t, cfg, relPath, relDir, env) ==> Unsplit(SanitizedParts(Split(relDir))) != ""
    ensures WriteResult(t, cfg, relPath, relDir, filename, data, env).Ok? ==> ReachesDir(t, cfg, relPath, relDir, env)
  {
    if ReachesDir(t, cfg, relPath, relDir, env) {
      AllKeepableMeans(SanitizedParts(Split(relDir)));
      UnsplitNonEmpty(SanitizedParts(Split(relDir)));
    }
  }

  lemma UnsplitNonEmpty(names: seq<string>)
    requires names != [] && forall i :: 0 <= i < |names| ==> Keepable(names[i])
    ensures Unsplit(names) != ""
  {
    assert Keepable(names[0]);
  }

  // The body of the handler's loop, for a file that opened.
  method UploadOne(disk: Disk, cfg: Settings, relPath: string, relDir: string, filename: string, file: FilePart)
    returns (result: UploadResult, entry: AuditEntry)
    requires disk.tree.Dir? && cfg.Valid() && file.env.Valid() && file.opens && !cfg.readonly
    modifies disk
    ensures disk.tree.Dir? && FileStep(cfg, relPath, relDir, filename, file, old(disk.tree), disk.tree, result)
    ensures FileAnswer(cfg, relPath, relDir, filename, file, old(disk.tree), result)
    ensures Records(entry, result, old(disk.tree), cfg, relPath, relDir, filename, file.env)
  {
    var written: Result<string, FsError>;
    var actualRelDir := "";
    if relDir != "" {
      MadeDirsNamed(disk.tree, cfg, relPath, relDir, filename, file.data, file.env);
      written, actualRelDir := WriteNested(disk, cfg, relPath, relDir, filename, file.data, file.env);
    } else {
      written := WriteFlat(disk, cfg, relPath, filename, file.data, file.env);
    }
    var auditRelDir := relPath;
    if actualRelDir != "" {
      auditRelDir := Join(relPath, actualRelDir);
    }
    result, entry := Report(disk.tree, cfg.site, file.filename, filename, auditRelDir, written);
  }

  // The result and the audit entry of a write.
  method Report(t: Inode, site: Site, originalName: string, filename: string, auditRelDir: string,
                written: Result<string, FsError>)
    returns (result: UploadResult, entry: AuditEntry)
    requires t.Dir? && site.Valid()
    ensures result.originalName == originalName && Written(result) == written && entry.error == result.error
    ensures written.Err? ==> result.finalName == "" && result.size == 0
                             && entry.size.None? && entry.path == Join(auditRelDir, filename)
    ensures written.Ok? ==> entry.path == Join(auditRelDir, written.value) && entry.size == Some(result.size)
                            && result.size == SizeAt(t, site.Root(), entry.path)
  {
    if written.Err? {
      result := UploadResult(originalName, "", 0, Some(written.error));
      entry := AuditEntry(Join(auditRelDir, filename), None, Some(written.error));
    } else {
      var path := Join(auditRelDir, written.value);
      var size := StatSize(t, site, path);
      result := UploadResult(originalName, written.value, size, None);
      entry := AuditEntry(path, Some(size), None);
    }
  }

  // ---- The whole request ----

  datatype Request = Request(path: string, clipboard: bool, clipboardName: string,
                             files: seq<FilePart>, relPaths: seq<string>) {
    predicate Valid() {
      forall i :: 0 <= i < |files| ==> files[i].env.Valid()
    }

    function RelPath(): string {
      if path == "" then DEFAULT_BROWSE_PATH else path
    }

    // A pasted image has no name of its own; only the first file is renamed.
    function NameOf(i: nat): string
      requires i < |files|
    {
      if clipboard && i == 0 then clipboardName else files[i].filename
    }

    // Files past the end of the relpath fields go to the browsed directory itself.
    function RelDirOf(i: nat): string {
      if i < |relPaths| then relPaths[i] else ""
    }

    // No link attempt fails but for names that exist.
    predicate LinksOnly() {
      forall i :: 0 <= i < |files| ==> files[i].env.linkFault.None?
    }
  }

  // The batch has got past file i; the steps of a chain are looked at one by one.
  predicate Handled(results: seq<UploadResult>, i: nat) {
    i < |results|
  }

  // The trees between the files of a batch, and what each file made of them.
  ghost predicate Chain(cfg: Settings, q: Request, trees: seq<Inode>, results: seq<UploadResult>) {
    && |trees| == |results| + 1 && |results| <= |q.files| && (forall i :: 0 <= i < |trees| ==> trees[i].Dir?)
    && (forall i: nat {:trigger Handled(results, i)} :: Handled(results, i) ==>
          ChainStep(cfg, q, i, trees[i], trees[i + 1], results[i]))
  }

  ghost predicate ChainStep(cfg: Settings, q: Request, i: nat, t: Inode, t': Inode, r: UploadResult)
    requires i < |q.files| && t.Dir?
  {
    && FileStep(cfg, q.RelPath(), q.RelDirOf(i), q.NameOf(i), q.files[i], t, t', r)
    && FileAnswer(cfg, q.RelPath(), q.RelDirOf(i), q.NameOf(i), q.files[i], t, r)
  }

  lemma ChainAt(cfg: Settings, q: Request, trees: seq<Inode>, results: seq<UploadResult>, i: nat)
    requires Chain(cfg, q, trees, results) && i < |results|
    ensures ChainStep(cfg, q, i, trees[i], trees[i + 1], results[i])
  {
    assert Handled(results, i);
  }

  lemma OnlyStep(cfg: Settings, q: Request, trees: seq<Inode>, results: seq<UploadResult>, t: Inode)
    requires Chain(cfg, q, trees, results) && |results| == 1 && trees[0] == t
    ensures |q.files| > 0 && t.Dir? && ChainStep(cfg, q, 0, t, trees[1], results[0])
  {
    ChainAt(cfg, q, trees, results, 0);
  }

  function Successes(results: seq<UploadResult>): nat {
    if results == [] then 0
    else Successes(results[..|results| - 1]) + if results[|results| - 1].error.None? then 1 else 0
  }

  function TotalSize(results: seq<UploadResult>): nat {
    if results == [] then 0
    else
      var last := results[|results| - 1];
      TotalSize(results[..|results| - 1]) + if last.error.None? then last.size else 0
  }

  predicate Succeeded(r: UploadResult) {
    r.error.None?
  }

  // The counts are counts: of the results without an error, and of their sizes.
  lemma {:induction false} SuccessesMean(results: seq<UploadResult>)
    ensures Successes(results) == |Sequences.Places(results, Succeeded)|
  {
    if results != [] {
      Sequences.PlacesGrow(results, Succeeded);
      SuccessesMean(results[..|results| - 1]);
    }
  }

  lemma {:induction false} TotalSizeAdds(a: seq<UploadResult>, b: seq<UploadResult>)
    ensures TotalSize(a + b) == TotalSize(a) + TotalSize(b)
    ensures |b| == 1 ==> TotalSize(b) == if b[0].error.None? then b[0].size else 0
  {
    if b == [] {
      assert a + b == a;
    } else {
      var n := |b| - 1;
      assert (a + b)[..|a + b| - 1] == a + b[..n];
      TotalSizeAdds(a, b[..n]);
    }
  }

  function OpenFailures(files: seq<FilePart>): nat {
    if files == [] then 0
    else OpenFailures(files[..|files| - 1]) + if files[|files| - 1].opens then 0 else 1
  }

  // The audit entry of file i, before which the tree was t.
  predicate RecordsFile(entry: AuditEntry, t: Inode, cfg: Settings, q: Request, i: nat, r: UploadResult)
    requires i < |q.files| && t.Dir?
  {
    Records(entry, r, t, cfg, q.RelPath(), q.RelDirOf(i), q.NameOf(i), q.files[i].env)
  }

  // The audit entries of one file: one if it opened.
  predicate Logs(entries: seq<AuditEntry>, t: Inode, cfg: Settings, q: Request, i: nat, r: UploadResult)
    requires i < |q.files| && t.Dir?
  {
    if q.files[i].opens then |entries| == 1 && RecordsFile(entries[0], t, cfg, q, i, r) else entries == []
  }

  // The place of file i among the audit entries.
  function EntryAt(q: Request, i: nat): int
    requires i <= |q.files|
  {
    i - OpenFailures(q.files[..i])
  }

  predicate AllDirs(trees: seq<Inode>) {
    forall i :: 0 <= i < |trees| ==> trees[i].Dir?
  }

  // One entry for each file that opened, in order; `before` are the trees before
  // each file.
  ghost predicate Audited(logged: seq<AuditEntry>, cfg: Settings, q: Request, before: seq<Inode>,
                          results: seq<UploadResult>)
    requires |before| == |results| <= |q.files| && AllDirs(before)
  {
    && |logged| == EntryAt(q, |results|)
    && forall i: nat {:trigger Handled(results, i)} ::
         Handled(results, i) && q.files[i].opens ==> EntryIs(logged, cfg, q, before, results, i)
  }

  predicate EntryIs(logged: seq<AuditEntry>, cfg: Settings, q: Request, before: seq<Inode>,
                    results: seq<UploadResult>, i: nat)
    requires |before| == |results| <= |q.files| && AllDirs(before) && i < |results|
  {
    0 <= EntryAt(q, i) < |logged| && RecordsFile(logged[EntryAt(q, i)], before[i], cfg, q, i, results[i])
  }

  // What the request asks for file i: the clipboard name for a pasted image, which
  // is the first file, and the file's own name for every other.
  ghost predicate NamedAsAsked(q: Request, i: nat, r: UploadResult)
    requires i < |q.files|
  {
    && r.originalName == q.files[i].filename
    && (r.error.None? && q.clipboard && i == 0 ==> NameFor(r.finalName, SanitizeFilename(q.clipboardName)))
    && (r.error.None? && (!q.clipboard || i > 0) ==> NameFor(r.finalName, SanitizeFilename(q.files[i].filename)))
  }

  // Where it asks for it: in the browsed directory, or the root if none is named,
  // and there in the directories of its relpath field, if it has one.
  predicate StoredAsAsked(cfg: Settings, q: Request, i: nat, t: Inode, t': Inode, r: UploadResult)
    requires i < |q.files| && t.Dir?
  {
    var browsed := if q.path == "" then "." else q.path;
    var nested := i < |q.relPaths| && q.relPaths[i] != "";
    var content := Copied(q.files[i].data, cfg.maxBytes);
    r.error.None? ==>
      && (!nested ==> Placed(t, t', cfg.site.Root(), browsed, r.finalName, content))
      && (nested ==> var dirs := SanitizedParts(Split(q.relPaths[i]));
                     Placed(t, t', cfg.site.Root(), Join(browsed, Unsplit(dirs)), r.finalName, content))
  }

  // The errors of a write that has not got to its directory.
  predicate BeforeDir(error: FsError) {
    error in {InvalidRelPath, PathTooLong, PathTraversal, PathResolution, CreateDirError}
  }

  // The audit entry of file i has the path it was stored at or, failing, the name
  // it was sent under: in the directory it was meant for, if the write got there,
  // else in the browsed one.
  predicate RecordedAsAsked(q: Request, i: nat, r: UploadResult, entry: AuditEntry)
    requires i < |q.files|
  {
    var browsed := if q.path == "" then "." else q.path;
    var nested := i < |q.relPaths| && q.relPaths[i] != "";
    var meant := if nested then Join(browsed, Unsplit(SanitizedParts(Split(q.relPaths[i])))) else browsed;
    var sent := if q.clipboard && i == 0 then q.clipboardName else q.files[i].filename;
    && entry.error == r.error
    && (r.error.None? ==> entry.size == Some(r.size) && entry.path == Join(meant, r.finalName))
    && (r.error.Some? ==> entry.size == None)
    && (r.error.Some? ==> entry.path == Join(if BeforeDir(r.error.value) then browsed else meant, sent))
  }

  lemma StepAsAsked(cfg: Settings, q: Request, i: nat, t: Inode, t': Inode, r: UploadResult)
    requires i < |q.files| && t.Dir? && ChainStep(cfg, q, i, t, t', r)
    ensures NamedAsAsked(q, i, r) && StoredAsAsked(cfg, q, i, t, t', r)
  {
  }

  lemma TargetErrors(t: Inode, cfg: Settings, relPath: string, relDir: string)
    requires t.Dir? && RelTarget(t, cfg, relPath, relDir).Err?
    ensures BeforeDir(RelTarget(t, cfg, relPath, relDir).error)
  {
  }

  lemma OutcomeErrors(t: Inode, cfg: Settings, p: Path, filename: string, data: Reader, env: Env)
    requires t.Dir? && RelOutcome(t, cfg, p, filename, data, env).Err?
    ensures BeforeDir(RelOutcome(t, cfg, p, filename, data, env).error) <==> !CanMake(t, p, env)
  {
  }

  lemma NestedErrors(t: Inode, cfg: Settings, relPath: string, relDir: string, filename: string, data: Reader, env: Env)
    requires t.Dir? && relDir != "" && WriteResult(t, cfg, relPath, relDir, filename, data, env).Err?
    ensures BeforeDir(WriteResult(t, cfg, relPath, relDir, filename, data, env).error)
            <==> !ReachesDir(t, cfg, relPath, relDir, env)
  {
    var target := RelTarget(t, cfg, relPath, relDir);
    if target.Err? {
      TargetErrors(t, cfg, relPath, relDir);
    } else {
      OutcomeErrors(t, cfg, target.value, filename, data, env);
    }
  }

  lemma RecordAsAsked(cfg: Settings, q: Request, i: nat, t: Inode, r: UploadResult, entry: AuditEntry)
    requires i < |q.files| && t.Dir? && RecordsFile(entry, t, cfg, q, i, r) && q.files[i].opens
    requires FileAnswer(cfg, q.RelPath(), q.RelDirOf(i), q.NameOf(i), q.files[i], t, r)
    ensures RecordedAsAsked(q, i, r, entry)
  {
    if r.error.Some? && q.RelDirOf(i) != "" {
      NestedErrors(t, cfg, q.RelPath(), q.RelDirOf(i), q.NameOf(i), q.files[i].data, q.files[i].env);
    }
  }

  lemma ChainAsAsked(cfg: Settings, q: Request, trees: seq<Inode>, results: seq<UploadResult>)
    requires Chain(cfg, q, trees, results)
    ensures forall i :: 0 <= i < |results| ==>
              NamedAsAsked(q, i, results[i]) && StoredAsAsked(cfg, q, i, trees[i], trees[i + 1], results[i])
  {
    forall i | 0 <= i < |results|
      ensures NamedAsAsked(q, i, results[i]) && StoredAsAsked(cfg, q, i, trees[i], trees[i + 1], results[i])
    {
      ChainAt(cfg, q, trees, results, i);
      StepAsAsked(cfg, q, i, trees[i], trees[i + 1], results[i]);
    }
  }

  lemma AuditedAt(logged: seq<AuditEntry>, cfg: Settings, q: Request, before: seq<Inode>,
                  results: seq<UploadResult>, i: nat)
    requires |before| == |results| <= |q.files| && AllDirs(before)
    requires Audited(logged, cfg, q, before, results) && i < |results| && q.files[i].opens
    ensures EntryIs(logged, cfg, q, before, results, i)
  {
    assert Handled(results, i);
  }

  lemma AuditAsAsked(logged: seq<AuditEntry>, cfg: Settings, q: Request, trees: seq<Inode>, results: seq<UploadResult>)
    requires Chain(cfg, q, trees, results) && Audited(logged, cfg, q, trees[..|results|], results)
    ensures forall i :: 0 <= i < |results| && q.files[i].opens ==>
              0 <= EntryAt(q, i) < |logged| && RecordedAsAsked(q, i, results[i], logged[EntryAt(q, i)])
  {
    forall i | 0 <= i < |results| && q.files[i].opens
      ensures 0 <= EntryAt(q, i) < |logged| && RecordedAsAsked(q, i, results[i], logged[EntryAt(q, i)])
    {
      AuditedAt(logged, cfg, q, trees[..|results|], results, i);
      ChainAt(cfg, q, trees, results, i);
      RecordAsAsked(cfg, q, i, trees[i], results[i], logged[EntryAt(q, i)]);
    }
  }

  // Go's HandleUpload, once the form is parsed.
  method HandleUpload(disk: Disk, counters: Counters, cfg: Settings, q: Request)
    returns (response: Response, logged: seq<AuditEntry>, ghost trees: seq<Inode>)
    requires disk.tree.Dir? && cfg.Valid() && q.Valid()
    modifies disk, counters
    ensures response.Forbidden? <==> cfg.readonly
    ensures response.NoFiles? <==> !cfg.readonly && q.files == []
    ensures !response.Uploaded? ==> disk.tree == old(disk.tree) && logged == []
                                    && counters.uploads == old(counters.uploads) && counters.bytes == old(counters.bytes)
    ensures response.Uploaded? ==>
              && |response.results| == |q.files|
              && response.uploaded == Successes(response.results)
              && response.uploaded + response.failed == |q.files|
              && counters.uploads == old(counters.uploads) + response.uploaded
              && counters.bytes == old(counters.bytes) + TotalSize(response.results)
              && Chain(cfg, q, trees, response.results)
              && Audited(logged, cfg, q, trees[..|q.files|], response.results)
              && trees[0] == old(disk.tree) && trees[|q.files|] == disk.tree
    ensures response.Uploaded? ==> forall i :: 0 <= i < |q.files| ==>
              && NamedAsAsked(q, i, response.results[i])
              && StoredAsAsked(cfg, q, i, trees[i], trees[i + 1], response.results[i])
    ensures response.Uploaded? ==> forall i :: 0 <= i < |q.files| && q.files[i].opens ==>
              0 <= EntryAt(q, i) < |logged| && RecordedAsAsked(q, i, response.results[i], logged[EntryAt(q, i)])
  {
    logged, trees := [], [disk.tree];
    if cfg.readonly {
      return Forbidden, logged, trees;
    }
    if q.files == [] {
      return NoFiles, logged, trees;
    }
    var results, uploaded, failed;
    results, uploaded, failed, logged, trees := UploadFiles(disk, counters, cfg, q);
    response := Uploaded(results, uploaded, failed);
    ChainAsAsked(cfg, q, trees, results);
    AuditAsAsked(logged, cfg, q, trees, results);
  }

  // What the handler has reported and recorded of the first i files.
  ghost predicate Tallied(cfg: Settings, q: Request, i: nat, results: seq<UploadResult>, uploaded: nat, failed: nat,
                          logged: seq<AuditEntry>, trees: seq<Inode>) {
    && i == |results| <= |q.files| && uploaded == Successes(results) && uploaded + failed == i
    && Chain(cfg, q, trees, results) && Audited(logged, cfg, q, trees[..i], results)
  }

  lemma ChainGrows(cfg: Settings, q: Request, trees: seq<Inode>, results: seq<UploadResult>, t': Inode, r: UploadResult)
    requires Chain(cfg, q, trees, results) && |results| < |q.files| && trees[|results|].Dir?
    requires ChainStep(cfg, q, |results|, trees[|results|], t', r)
    ensures Chain(cfg, q, trees + [t'], results + [r])
  {
    var ts, rs := trees + [t'], results + [r];
    forall i: nat | Handled(rs, i)
      ensures ChainStep(cfg, q, i, ts[i], ts[i + 1], rs[i])
    {
      if i < |results| {
        ChainAt(cfg, q, trees, results, i);
        assert ts[i] == trees[i] && ts[i + 1] == trees[i + 1] && rs[i] == results[i];
      }
    }
  }

  lemma TallyGrows(cfg: Settings, q: Request, results: seq<UploadResult>, uploaded: nat, failed: nat,
                   logged: seq<AuditEntry>, trees: seq<Inode>, t': Inode, r: UploadResult, entries: seq<AuditEntry>)
    requires |results| < |q.files| && Tallied(cfg, q, |results|, results, uploaded, failed, logged, trees)
    requires trees[|results|].Dir? && ChainStep(cfg, q, |results|, trees[|results|], t', r)
    requires Logs(entries, trees[|results|], cfg, q, |results|, r)
    ensures var ok := if r.error.None? then 1 else 0;
            Tallied(cfg, q, |results| + 1, results + [r], uploaded + ok, failed + 1 - ok, logged + entries, trees + [t'])
    ensures TotalSize(results + [r]) == TotalSize(results) + if r.error.None? then r.size else 0
  {
    ChainGrows(cfg, q, trees, results, t', r);
    AuditGrows(logged, cfg, q, trees[..|results|], results, trees[|results|], r, entries);
    OneMoreTree(trees, t');
    CountsGrow(results, r);
  }

  lemma OneMoreTree(trees: seq<Inode>, t': Inode)
    requires trees != []
    ensures (trees + [t'])[..|trees|] == trees[..|trees| - 1] + [trees[|trees| - 1]]
  {
  }

  lemma CountsGrow(results: seq<UploadResult>, r: UploadResult)
    ensures Successes(results + [r]) == Successes(results) + if r.error.None? then 1 else 0
    ensures TotalSize(results + [r]) == TotalSize(results) + if r.error.None? then r.size else 0
  {
    assert (results + [r])[..|results|] == results;
  }

  lemma EntryAtNext(q: Request, n: nat)
    requires n < |q.files|
    ensures EntryAt(q, n + 1) == EntryAt(q, n) + if q.files[n].opens then 1 else 0
  {
    assert q.files[..n + 1][..n] == q.files[..n];
  }

  lemma AuditGrows(logged: seq<AuditEntry>, cfg: Settings, q: Request, before: seq<Inode>, results: seq<UploadResult>,
                   t: Inode, r: UploadResult, entries: seq<AuditEntry>)
    requires |before| == |results| < |q.files| && t.Dir? && AllDirs(before)
    requires Audited(logged, cfg, q, before, results) && Logs(entries, t, cfg, q, |results|, r)
    ensures Audited(logged + entries, cfg, q, before + [t], results + [r])
  {
    var n, rs := |results|, results + [r];
    EntryAtNext(q, n);
    forall i: nat | Handled(rs, i) && q.files[i].opens
      ensures EntryIs(logged + entries, cfg, q, before + [t], rs, i)
    {
      if i < n {
        AuditedAt(logged, cfg, q, before, results, i);
        EntryKept(logged, cfg, q, before, results, t, r, entries, i);
      } else {
        assert (logged + entries)[|logged|] == entries[0] && (before + [t])[n] == t && rs[n] == r;
      }
    }
  }

  lemma EntryKept(logged: seq<AuditEntry>, cfg: Settings, q: Request, before: seq<Inode>, results: seq<UploadResult>,
                  t: Inode, r: UploadResult, entries: seq<AuditEntry>, i: nat)
    requires |before| == |results| < |q.files| && t.Dir? && AllDirs(before) && i < |results|
    requires EntryIs(logged, cfg, q, before, results, i)
    ensures EntryIs(logged + entries, cfg, q, before + [t], results + [r], i)
  {
    var k := EntryAt(q, i);
    assert (logged + entries)[k] == logged[k] && (before + [t])[i] == before[i] && (results + [r])[i] == results[i];
  }

  // The loop of HandleUpload.
  method UploadFiles(disk: Disk, counters: Counters, cfg: Settings, q: Request)
    returns (results: seq<UploadResult>, uploaded: nat, failed: nat, logged: seq<AuditEntry>, ghost trees: seq<Inode>)
    requires disk.tree.Dir? && cfg.Valid() && q.Valid() && !cfg.readonly
    modifies disk, counters
    ensures Tallied(cfg, q, |q.files|, results, uploaded, failed, logged, trees)
    ensures counters.uploads == old(counters.uploads) + uploaded
    ensures counters.bytes == old(counters.bytes) + TotalSize(results)
    ensures trees[0] == old(disk.tree) && trees[|q.files|] == disk.tree
  {
    results, uploaded, failed, logged, trees := [], 0, 0, [], [disk.tree];
    for i := 0 to |q.files|
      invariant Tallied(cfg, q, i, results, uploaded, failed, logged, trees)
      invariant counters.uploads == old(counters.uploads) + uploaded
      invariant counters.bytes == old(counters.bytes) + TotalSize(results)
      invariant trees[0] == old(disk.tree) && trees[i] == disk.tree
    {
      var result, entries := UploadNext(disk, counters, cfg, q, i);
      TallyGrows(cfg, q, results, uploaded, failed, logged, trees, disk.tree, result, entries);
      if result.error.None? {
        uploaded := uploaded + 1;
      } else {
        failed := failed + 1;
      }
      results := results + [result];
      logged := logged + entries;
      trees := trees + [disk.tree];
    }
  }

  // One turn of the loop: the file, its audit entry if it opened, and the counters.
  method UploadNext(disk: Disk, counters: Counters, cfg: Settings, q: Request, i: nat)
    returns (result: UploadResult, entries: seq<AuditEntry>)
    requires disk.tree.Dir? && cfg.Valid() && q.Valid() && !cfg.readonly && i < |q.files|
    modifies disk, counters
    ensures disk.tree.Dir?
    ensures ChainStep(cfg, q, i, old(disk.tree), disk.tree, result)
    ensures Logs(entries, old(disk.tree), cfg, q, i, result)
    ensures counters.uploads == old(counters.uploads) + if result.error.None? then 1 else 0
    ensures counters.bytes == old(counters.bytes) + if result.error.None? then result.size else 0
  {
    var file := q.files[i];
    if !file.opens {
      NothingMade(disk.tree, []);
      return UploadResult(file.filename, "", 0, Some(WriteFileError)), [];
    }
    var entry;
    result, entry := UploadOne(disk, cfg, q.RelPath(), q.RelDirOf(i), q.NameOf(i), file);
    entries := [entry];
    if result.error.None? {
      counters.uploads := counters.uploads + 1;
      counters.bytes := counters.bytes + result.size;
    }
  }

  predicate Opens(file: FilePart) {
    file.opens
  }

  lemma {:induction false} OpenFailuresMean(files: seq<FilePart>)
    ensures |files| - OpenFailures(files) == |Sequences.Places(files, Opens)|
  {
    if files != [] {
      Sequences.PlacesGrow(files, Opens);
      OpenFailuresMean(files[..|files| - 1]);
    }
  }

  // Every file is audited but those that could not be opened.
  lemma AuditCounts(logged: seq<AuditEntry>, cfg: Settings, q: Request, before: seq<Inode>, results: seq<UploadResult>)
    requires |before| == |results| <= |q.files| && AllDirs(before)
    requires Audited(logged, cfg, q, before, results)
    ensures |logged| == |results| - OpenFailures(q.files[..|results|])
    ensures |logged| == |Sequences.Places(q.files[..|results|], Opens)|
  {
    OpenFailuresMean(q.files[..|results|]);
  }

  // ---- Where the files end up ----

  // What one file of a batch does to the tree: it is stored in a directory, or
  // nothing but directories are added.
  datatype Change = Change(ok: bool, dir: Path, name: string, content: seq<bv8>) {
    function Dest(): Path {
      dir + [name]
    }
  }

  ghost predicate Grows(t: Inode, t': Inode, c: Change) {
    && t.Dir? && t'.Dir?
    && if c.ok then
         && Makeable(t, c.dir) && Stores(MakeDirs(t, c.dir), t', c.dir, c.name, c.content)
         && c.name !in Entries(MakeDirs(t, c.dir), c.dir)
       else OnlyDirsMade(t, t')
  }

  ghost predicate GrowthChain(trees: seq<Inode>, changes: seq<Change>) {
    && |trees| == |changes| + 1
    && (forall i :: 0 <= i < |changes| ==> Grows(trees[i], trees[i + 1], changes[i]))
  }

  function ChangeOf(cfg: Settings, q: Request, t: Inode, i: nat, r: UploadResult): Change
    requires t.Dir? && i < |q.files|
  {
    Change(r.error.None?, Target(t, cfg, AuditDir(q.RelPath(), q.RelDirOf(i))), r.finalName,
           Copied(q.files[i].data, cfg.maxBytes))
  }

  // The changes a batch reports: a successful file is the stored one, under its
  // final name in the directory its path and relpath name.
  function Changes(cfg: Settings, q: Request, trees: seq<Inode>, results: seq<UploadResult>): (changes: seq<Change>)
    requires |trees| == |results| + 1 && |results| <= |q.files| && forall i :: 0 <= i < |trees| ==> trees[i].Dir?
    ensures |changes| == |results|
    ensures forall i :: 0 <= i < |results| ==> changes[i] == ChangeOf(cfg, q, trees[i], i, results[i])
  {
    seq(|results|, i requires 0 <= i < |results| => ChangeOf(cfg, q, trees[i], i, results[i]))
  }

  lemma FileStepGrows(cfg: Settings, q: Request, i: nat, t: Inode, t': Inode, r: UploadResult)
    requires t.Dir? && i < |q.files| && q.files[i].env.linkFault.None?
    requires FileStep(cfg, q.RelPath(), q.RelDirOf(i), q.NameOf(i), q.files[i], t, t', r)
    ensures Grows(t, t', ChangeOf(cfg, q, t, i, r))
  {
    if !q.files[i].opens {
      NothingMade(t, []);
    }
  }

  lemma ChangeGrows(cfg: Settings, q: Request, trees: seq<Inode>, results: seq<UploadResult>, i: nat)
    requires Chain(cfg, q, trees, results) && q.LinksOnly() && i < |results|
    ensures Grows(trees[i], trees[i + 1], ChangeOf(cfg, q, trees[i], i, results[i]))
  {
    ChainAt(cfg, q, trees, results, i);
    FileStepGrows(cfg, q, i, trees[i], trees[i + 1], results[i]);
  }

  // With links, a batch does to the tree what it reports.
  lemma {:induction false} BatchGrows(cfg: Settings, q: Request, trees: seq<Inode>, results: seq<UploadResult>)
    requires Chain(cfg, q, trees, results) && q.LinksOnly()
    ensures GrowthChain(trees, Changes(cfg, q, trees, results))
  {
    forall i | 0 <= i < |results|
      ensures Grows(trees[i], trees[i + 1], ChangeOf(cfg, q, trees[i], i, results[i]))
    {
      ChangeGrows(cfg, q, trees, results, i);
    }
  }

  // A write that only links adds its file where nothing was, and keeps the rest.
  lemma StoresFile(t: Inode, t': Inode, p: Path, name: string, content: seq<bv8>)
    requires t.Dir? && Makeable(t, p) && Stores(MakeDirs(t, p), t', p, name, content)
    requires name !in Entries(MakeDirs(t, p), p)
    ensures Extends(t, t') && IsDir(t', p)
    ensures !Exists(t, p + [name]) && Lookup(t', p + [name]) == Some(File(content))
    ensures forall x :: Exists(t', x) && !Exists(t, x) ==> IsDir(t', x) || x == p + [name]
  {
    var base := MakeDirs(t, p);
    var m := Entries(base, p)[name := File(content)];
    MakeDirsExtends(t, p);
    ReplaceExtends(base, p, m);
    ExtendsTransitive(t, base, t');
    ReplaceEntries(base, p, m);
    LookupChild(base, p, name);
    LookupChild(t', p, name);
    forall x | Exists(t', x) && !Exists(t, x)
      ensures IsDir(t', x) || x == p + [name]
    {
      NewIsStored(t, t', p, name, content, x);
    }
  }

  lemma NewIsStored(t: Inode, t': Inode, p: Path, name: string, content: seq<bv8>, x: Path)
    requires t.Dir? && Makeable(t, p) && Stores(MakeDirs(t, p), t', p, name, content)
    requires Exists(t', x) && !Exists(t, x)
    ensures IsDir(t', x) || x == p + [name]
  {
    var base := MakeDirs(t, p);
    var m := Entries(base, p)[name := File(content)];
    ReplaceEntries(base, p, m);
    ReplaceLookup(base, p, m, x);
    MakeDirsLookup(t, p, x);
    if p <= x && x != p {
      var rest := x[|p|..];
      assert x == p + rest;
      LookupConcat(base, p, rest);
      LookupConcat(t', p, rest);
      assert rest == [rest[0]] + rest[1..];
    }
  }

  lemma GrowthKeeps(t: Inode, t': Inode, c: Change)
    requires Grows(t, t', c)
    ensures Extends(t, t')
    ensures c.ok ==> !Exists(t, c.Dest()) && Lookup(t', c.Dest()) == Some(File(c.content))
  {
    if c.ok {
      StoresFile(t, t', c.dir, c.name, c.content);
    } else {
      var p: Path, made: nat :| OnlyMade(t, t', p, made);
      MakeDirsExtends(t, p[..made]);
    }
  }

  lemma GrowthAdds(t: Inode, t': Inode, c: Change, x: Path)
    requires Grows(t, t', c) && Exists(t', x) && !Exists(t, x)
    ensures IsDir(t', x) || (c.ok && x == c.Dest())
  {
    if c.ok {
      StoresFile(t, t', c.dir, c.name, c.content);
    } else {
      var p: Path, made: nat :| OnlyMade(t, t', p, made);
      OnlyMadeTouchesNoFile(t, t', p, made, x);
    }
  }

  // A batch only adds: what was there stays as it was.
  lemma {:induction false} BatchKeepsAll(trees: seq<Inode>, changes: seq<Change>, i: nat, j: nat)
    requires GrowthChain(trees, changes) && i <= j < |trees|
    ensures Extends(trees[i], trees[j])
    decreases j
  {
    if i < j {
      BatchKeepsAll(trees, changes, i, j - 1);
      assert Grows(trees[j - 1], trees[j - 1 + 1], changes[j - 1]);
      GrowthKeeps(trees[j - 1], trees[j], changes[j - 1]);
      ExtendsTransitive(trees[i], trees[j - 1], trees[j]);
    }
  }

  // Each file of a batch goes to a place that was free, and is there, whole, when
  // the batch is over.
  lemma {:induction false} FilesArriveWhole(trees: seq<Inode>, changes: seq<Change>, i: nat)
    requires GrowthChain(trees, changes) && i < |changes| && changes[i].ok
    ensures !Exists(trees[0], changes[i].Dest())
    ensures Lookup(trees[|changes|], changes[i].Dest()) == Some(File(changes[i].content))
  {
    GrowthKeeps(trees[i], trees[i + 1], changes[i]);
    BatchKeepsAll(trees, changes, 0, i);
    BatchKeepsAll(trees, changes, i + 1, |changes|);
    assert Exists(trees[i + 1], changes[i].Dest());
  }

  // No two files of a batch go to the same place.
  lemma {:induction false} DestinationsAreDistinct(trees: seq<Inode>, changes: seq<Change>, i: nat, j: nat)
    requires GrowthChain(trees, changes) && i < j < |changes| && changes[i].ok && changes[j].ok
    ensures changes[i].Dest() != changes[j].Dest()
  {
    GrowthKeeps(trees[i], trees[i + 1], changes[i]);
    BatchKeepsAll(trees, changes, i + 1, j);
    GrowthKeeps(trees[j], trees[j + 1], changes[j]);
    assert Exists(trees[i + 1], changes[i].Dest());
  }

  // Nothing but directories and the batch's own files is added.
  lemma {:induction false} NothingElseAppears(trees: seq<Inode>, changes: seq<Change>, n: nat, x: Path)
    requires GrowthChain(trees, changes) && n <= |changes|
    requires Exists(trees[n], x) && !Exists(trees[0], x) && !IsDir(trees[n], x)
    ensures exists i :: 0 <= i < n && changes[i].ok && x == changes[i].Dest()
    decreases n
  {
    assert Grows(trees[n - 1], trees[n - 1 + 1], changes[n - 1]);
    if Exists(trees[n - 1], x) {
      GrowthKeeps(trees[n - 1], trees[n], changes[n - 1]);
      assert !IsDir(trees[n - 1], x);
      NothingElseAppears(trees, changes, n - 1, x);
    } else {
      GrowthAdds(trees[n - 1], trees[n], changes[n - 1], x);
    }
  }

  // The reported size is the payload's, exactly when the file's own path is not
  // too long for the jail and the server is not rooted at "/"; otherwise it is 0.
  lemma {:induction false} ReportedSize(cfg: Settings, q: Request, trees: seq<Inode>, results: seq<UploadResult>, i: nat)
    requires Chain(cfg, q, trees, results) && q.LinksOnly() && i < |results| && results[i].error.None?
    ensures var root := cfg.site.Root();
            var path := Join(AuditDir(q.RelPath(), q.RelDirOf(i)), results[i].finalName);
            Resolve(trees[i], root).Found? &&
            results[i].size == if |path| <= MAX_PATH_LENGTH && ResolvedRoot(trees[i], root) != []
                               then |Copied(q.files[i].data, cfg.maxBytes)| else 0
  {
    ChainAt(cfg, q, trees, results, i);
    SizeOfStored(trees[i], trees[i + 1], cfg.site.Root(), AuditDir(q.RelPath(), q.RelDirOf(i)), results[i].finalName,
                 Copied(q.files[i].data, cfg.maxBytes));
  }

  lemma SizeOfStored(t: Inode, t': Inode, root: Path, dir: string, name: string, content: seq<bv8>)
    requires t.Dir? && t'.Dir? && AllPlain(root) && Placed(t, t', root, dir, name, content)
    requires var p := SafeTarget(t, root, dir).value; name !in Entries(MakeDirs(t, p), p)
    ensures Resolve(t, root).Found?
    ensures SizeAt(t', root, Join(dir, name)) ==
              if |Join(dir, name)| <= MAX_PATH_LENGTH && ResolvedRoot(t, root) != [] then |content| else 0
  {
    StoresFile(t, t', SafeTarget(t, root, dir).value, name, content);
    RevalidationAgrees(t, t', root, dir);
    WalkExtends(t, t', [], root, EVAL_LINKS);
    if |Join(dir, name)| <= MAX_PATH_LENGTH {
      ChildTarget(t', root, dir, name);
    }
  }

  // ---- An upload whose size is lost ----

  // The root holds a link of 240 bytes to itself, and a request follows it 17
  // times: a path of 4096 bytes.
  const LOOP_LENGTH: nat := 240
  const LOOP_TIMES: nat := 17

  function LoopName(): (name: string)
    ensures |name| == LOOP_LENGTH && Plain(name) && '\0' !in name
  {
    seq(LOOP_LENGTH, i => 'a')
  }

  const LOOP_TREE := Dir(map["r" := Dir(map[LoopName() := Link(".")])])

  function Loops(n: nat): (p: Path)
    ensures |p| == n && AllPlain(p) && NulFree(p) && forall i :: 0 <= i < n ==> p[i] == LoopName()
  {
    seq(n, i => LoopName())
  }

  lemma {:induction false} WalkLoops(n: nat, links: nat)
    requires n <= links
    ensures Walk(LOOP_TREE, ["r"], Loops(n), links) == Found(["r"], links - n)
    decreases n
  {
    if n > 0 {
      var rest := Loops(n - 1);
      assert Loops(n)[1..] == rest;
      LookupChild(LOOP_TREE, [], "r");
      LookupChild(LOOP_TREE, ["r"], LoopName());
      SplitSlashFree(".");
      assert (["."] + rest)[1..] == rest;
      assert [] + ["r"] == ["r"];
      WalkLoops(n - 1, links - 1);
      assert Walk(LOOP_TREE, ["r"], ["."] + rest, links - 1) == Walk(LOOP_TREE, ["r"], rest, links - 1);
    }
  }

  lemma {:induction false} LoopsLength(n: nat)
    requires n > 0
    ensures |Unsplit(Loops(n))| == (LOOP_LENGTH + 1) * n - 1
  {
    if n > 1 {
      assert Loops(n)[1..] == Loops(n - 1);
      LoopsLength(n - 1);
    }
  }

  // The request leads to the root.
  lemma LoopTarget()
    ensures SafeTarget(LOOP_TREE, ["r"], Unsplit(Loops(LOOP_TIMES))) == Ok(["r"])
    ensures Resolve(LOOP_TREE, ["r"]) == Found(["r"], EVAL_LINKS)
  {
    var names := Loops(LOOP_TIMES);
    var target := ["r"] + names;
    LoopsLength(LOOP_TIMES);
    UnsplitNulFree(names);
    SplitUnsplit(names);
    NormalizePlain(["r"], names);
    LookupChild(LOOP_TREE, [], "r");
    assert [] + ["r"] == ["r"] && target[1..] == names && target[..|target|] == target;
    WalkLoops(LOOP_TIMES, EVAL_LINKS);
    assert Resolve(LOOP_TREE, target) == Found(["r"], EVAL_LINKS - LOOP_TIMES);
    assert Resolve(LOOP_TREE, ["r"]) == Found(["r"], EVAL_LINKS);
    assert ["r"] + target[|target|..] == ["r"];
    assert Unsplit(names)[0] == names[0][0] by {
      assert Unsplit(names) == names[0] + "/" + Unsplit(names[1..]);
    }
  }

  // The path of a file behind the loops is two bytes longer.
  lemma LoopFilePath()
    ensures |Join(Unsplit(Loops(LOOP_TIMES)), "f")| == MAX_PATH_LENGTH + 2
  {
    var names := Loops(LOOP_TIMES);
    var all := names + ["f"];
    LoopsLength(LOOP_TIMES);
    UnsplitConcat(names, ["f"]);
    SplitUnsplit(all);
    CleanRelativePlain(0, [], all);
    assert [] + all == all && Dots(0) + all == all;
    assert Unsplit(names) == names[0] + "/" + Unsplit(names[1..]);
  }

  lemma LoopRoot()
    ensures LOOP_TREE.Dir? && IsDir(LOOP_TREE, ["r"])
    ensures Entries(LOOP_TREE, ["r"]) == map[LoopName() := Link(".")]
  {
    LookupChild(LOOP_TREE, [], "r");
    assert [] + ["r"] == ["r"];
  }

  lemma LoopOutcome(m: map<string, Inode>, cfg: Settings, env: Env, t: Inode, dir: Path)
    requires 1 <= cfg.maxBytes < MAX_INT64 && env.Quiet() && env.tempName != "f"
    requires IsDir(t, dir) && Entries(t, dir) == m && "f" !in m && env.tempName !in m
    ensures WriteOutcome(t, dir, cfg, "f", Reader([1], false), env) == Ok("f")
  {
    var placed := WithTemp(t, dir, env.tempName, [1]);
    assert Candidates("f", env.stamps)[0] !in Entries(placed, dir);
  }

  // What a one-byte upload "f" into the loop answers.
  lemma LoopWrite(cfg: Settings, env: Env)
    requires cfg.site.Root() == ["r"] && !cfg.readonly && cfg.allowed == [] && 1 <= cfg.maxBytes < MAX_INT64
    requires env.Valid() && env.Quiet() && env.tempName != "f" && env.tempName != LoopName()
    ensures WriteResult(LOOP_TREE, cfg, Unsplit(Loops(LOOP_TIMES)), "", "f", Reader([1], false), env) == Ok("f")
  {
    LoopTarget();
    LoopRoot();
    assert |LoopName()| != |"f"|;
    LoopOutcome(map[LoopName() := Link(".")], cfg, env, LOOP_TREE, ["r"]);
    SafeIsFixed("f");
    assert CheckDir(LOOP_TREE, Ok(["r"]), WriteFileError) == Ok(["r"]);
  }

  // The request that uploads it.
  function LoopRequest(env: Env): Request {
    Request(Unsplit(Loops(LOOP_TIMES)), false, "", [FilePart("f", true, Reader([1], false), env)], [])
  }

  lemma LoopParts(env: Env)
    ensures var q := LoopRequest(env);
            && q.RelPath() == Unsplit(Loops(LOOP_TIMES)) && q.RelDirOf(0) == "" && q.NameOf(0) == "f"
            && q.files[0] == FilePart("f", true, Reader([1], false), env) && (env.linkFault.None? ==> q.LinksOnly())
  {
    LoopsLength(LOOP_TIMES);
  }

  lemma LoopResult(cfg: Settings, env: Env, t': Inode, r: UploadResult)
    requires cfg.site.Root() == ["r"] && !cfg.readonly && cfg.allowed == [] && 1 <= cfg.maxBytes < MAX_INT64
    requires env.Valid() && env.Quiet() && env.tempName != "f" && env.tempName != LoopName()
    requires ChainStep(cfg, LoopRequest(env), 0, LOOP_TREE, t', r)
    ensures r.originalName == "f" && r.finalName == "f" && r.error.None?
  {
    LoopParts(env);
    LoopWrite(cfg, env);
    assert Written(r) == Ok("f");
  }

  lemma LoopSize(cfg: Settings, env: Env, trees: seq<Inode>, results: seq<UploadResult>)
    requires env.linkFault.None? && Chain(cfg, LoopRequest(env), trees, results) && results != []
    requires results[0].error.None? && results[0].finalName == "f"
    ensures results[0].size == 0
  {
    LoopParts(env);
    LoopFilePath();
    ReportedSize(cfg, LoopRequest(env), trees, results, 0);
  }

  lemma LoopStored(cfg: Settings, env: Env, t': Inode, r: UploadResult)
    requires cfg.site.Root() == ["r"] && 1 <= cfg.maxBytes < MAX_INT64 && r.error.None? && r.finalName == "f"
    requires env.linkFault.None? && ChainStep(cfg, LoopRequest(env), 0, LOOP_TREE, t', r)
    ensures Lookup(t', ["r", "f"]) == Some(File([1]))
  {
    FileStepGrows(cfg, LoopRequest(env), 0, LOOP_TREE, t', r);
    LoopChange(cfg, env, r);
    var c := Change(true, ["r"], "f", [1]);
    GrowthKeeps(LOOP_TREE, t', c);
    assert c.Dest() == ["r", "f"];
  }

  // A concrete loss: the upload is stored whole and its size is reported as 0.
  lemma SizeIsLost(cfg: Settings, env: Env, trees: seq<Inode>, results: seq<UploadResult>)
    requires cfg.site.Root() == ["r"] && !cfg.readonly && cfg.allowed == [] && 1 <= cfg.maxBytes < MAX_INT64
    requires env.Valid() && env.Quiet() && env.tempName != "f" && env.tempName != LoopName()
    requires Chain(cfg, LoopRequest(env), trees, results) && |results| == 1 && trees[0] == LOOP_TREE
    ensures results[0] == UploadResult("f", "f", 0, None)
    ensures Lookup(trees[1], ["r", "f"]) == Some(File([1]))
  {
    LoopArrives(cfg, env, trees, results);
    LoopSize(cfg, env, trees, results);
  }

  lemma LoopArrives(cfg: Settings, env: Env, trees: seq<Inode>, results: seq<UploadResult>)
    requires cfg.site.Root() == ["r"] && !cfg.readonly && cfg.allowed == [] && 1 <= cfg.maxBytes < MAX_INT64
    requires env.Valid() && env.Quiet() && env.tempName != "f" && env.tempName != LoopName()
    requires Chain(cfg, LoopRequest(env), trees, results) && |results| == 1 && trees[0] == LOOP_TREE
    ensures results[0].originalName == "f" && results[0].finalName == "f" && results[0].error.None?
    ensures Lookup(trees[1], ["r", "f"]) == Some(File([1]))
  {
    OnlyStep(cfg, LoopRequest(env), trees, results, LOOP_TREE);
    LoopStepArrives(cfg, env, trees[1], results[0]);
  }

  lemma LoopStepArrives(cfg: Settings, env: Env, t': Inode, r: UploadResult)
    requires cfg.site.Root() == ["r"] && !cfg.readonly && cfg.allowed == [] && 1 <= cfg.maxBytes < MAX_INT64
    requires env.Valid() && env.Quiet() && env.tempName != "f" && env.tempName != LoopName()
    requires ChainStep(cfg, LoopRequest(env), 0, LOOP_TREE, t', r)
    ensures r.originalName == "f" && r.finalName == "f" && r.error.None?
    ensures Lookup(t', ["r", "f"]) == Some(File([1]))
  {
    LoopResult(cfg, env, t', r);
    LoopStored(cfg, env, t', r);
  }

  lemma LoopChange(cfg: Settings, env: Env, r: UploadResult)
    requires cfg.site.Root() == ["r"] && 1 <= cfg.maxBytes < MAX_INT64 && r.error.None? && r.finalName == "f"
    ensures ChangeOf(cfg, LoopRequest(env), LOOP_TREE, 0, r) == Change(true, ["r"], "f", [1])
  {
    LoopTarget();
    LoopParts(env);
  }
}
