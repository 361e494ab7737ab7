// Any number of SafeWriteFile calls into one directory, interleaved at every
// file-system step, with os.Link failing only because a name is taken.
//
// The directory maps names to inode numbers and a hard link adds a second name
// for an inode, so a file could still change after it was linked into place.
// That it does not is part of what is proved.
module ConcurrentUploads {
  import opened Disks
  import opened Errors
  import opened FileTree
  import opened Names
  import opened Paths
  import opened WritePipeline

  type Ino = nat
  type Bytes = seq<bv8>

  // One call, after its checks: the upload's reader, the size limit, and the
  // names to try, the desired one first.
  datatype Job = Job(data: Reader, max: int, names: seq<string>) {
    // What the copy takes from the reader.
    function Content(): Bytes {
      Copied(data, max)
    }

    // The copy meets no error of the reader, and it is not too large.
    predicate Accepted() {
      !CopyFails(data, max) && |Content()| <= max
    }
  }

  datatype Phase =
    | Start
    | Copying(temp: string, ino: Ino)
    | Linking(temp: string, ino: Ino, tried: nat)
    | Linked(temp: string, ino: Ino, name: string)
    | Cleaning(temp: string, ino: Ino, error: FsError)
    | Done(ino: Ino, name: string)
    | GaveUp(error: FsError)

  datatype State = State(names: map<string, Ino>, data: map<Ino, Bytes>, phase: seq<Phase>)

  // ---- The steps of one writer ----

  // os.CreateTemp: a fresh inode under a free name.
  ghost predicate Create(s: State, s': State, i: nat, temp: string, ino: Ino)
    requires i < |s.phase|
  {
    && s.phase[i] == Start && temp !in s.names && ino !in s.data
    && s' == State(s.names[temp := ino], s.data[ino := []], s.phase[i := Copying(temp, ino)])
  }

  // io.Copy writes some more bytes, through a reader cut off at max+1 bytes.
  ghost predicate CopySome(job: Job, s: State, s': State, i: nat, n: nat)
    requires i < |s.phase|
  {
    && s.phase[i].Copying? && s.phase[i].ino in s.data
    && var ino := s.phase[i].ino;
       var done := |s.data[ino]|;
       && done + n <= |job.Content()|
       && s' == s.(data := s.data[ino := s.data[ino] + job.Content()[done..done + n]])
  }

  // Nothing is left to copy.
  ghost predicate CopiedAll(job: Job, s: State, i: nat)
    requires i < |s.phase|
  {
    s.phase[i].Copying? && s.phase[i].ino in s.data && |s.data[s.phase[i].ino]| == |job.Content()|
  }

  // The copy is complete and within the limit.
  ghost predicate CopyDone(job: Job, s: State, s': State, i: nat)
    requires i < |s.phase|
  {
    && CopiedAll(job, s, i) && job.Accepted()
    && s' == s.(phase := s.phase[i := Linking(s.phase[i].temp, s.phase[i].ino, 0)])
  }

  // The reader fails, the payload is too large, or every name was taken: the
  // deferred cleanup is next.
  ghost predicate Fail(job: Job, s: State, s': State, i: nat)
    requires i < |s.phase|
  {
    || (CopiedAll(job, s, i) && CopyFails(job.data, job.max) && CleanUp(s, s', i, WriteFileError))
    || (CopiedAll(job, s, i) && !CopyFails(job.data, job.max) && !job.Accepted() && CleanUp(s, s', i, FileTooLarge))
    || (s.phase[i].Linking? && s.phase[i].tried == |job.names| && CleanUp(s, s', i, FileExists))
  }

  // Writing, closing or chmod fails.
  ghost predicate Fault(s: State, s': State, i: nat)
    requires i < |s.phase|
  {
    && (s.phase[i].Copying? || (s.phase[i].Linking? && s.phase[i].tried == 0))
    && CleanUp(s, s', i, WriteFileError)
  }

  ghost predicate CleanUp(s: State, s': State, i: nat, error: FsError)
    requires i < |s.phase| && (s.phase[i].Copying? || s.phase[i].Linking?)
  {
    s' == s.(phase := s.phase[i := Cleaning(s.phase[i].temp, s.phase[i].ino, error)])
  }

  // os.Link: atomically takes the next name if it is free.
  ghost predicate LinkNext(job: Job, s: State, s': State, i: nat)
    requires i < |s.phase|
  {
    && s.phase[i].Linking? && s.phase[i].tried < |job.names|
    && var Linking(temp, ino, tried) := s.phase[i];
       var name := job.names[tried];
       if name in s.names then s' == s.(phase := s.phase[i := Linking(temp, ino, tried + 1)])
       else s' == s.(names := s.names[name := ino], phase := s.phase[i := Linked(temp, ino, name)])
  }

  // os.Remove of the temp name, after success or in the cleanup.
  ghost predicate Unlink(s: State, s': State, i: nat)
    requires i < |s.phase|
  {
    match s.phase[i]
    case Linked(temp, ino, name) => s' == s.(names := s.names - {temp}, phase := s.phase[i := Done(ino, name)])
    case Cleaning(temp, ino, error) => s' == s.(names := s.names - {temp}, phase := s.phase[i := GaveUp(error)])
    case _ => false
  }

  // A call that fails before it has a temp file.
  ghost predicate Refuse(s: State, s': State, i: nat, error: FsError)
    requires i < |s.phase|
  {
    s.phase[i] == Start && s' == s.(phase := s.phase[i := GaveUp(error)])
  }

  // A step in which nothing fails but for the upload and what is there.
  ghost predicate QuietStepOf(job: Job, s: State, s': State, i: nat)
    requires i < |s.phase|
  {
    || (exists temp, ino :: Create(s, s', i, temp, ino))
    || (exists n :: CopySome(job, s, s', i, n))
    || CopyDone(job, s, s', i) || Fail(job, s, s', i)
    || LinkNext(job, s, s', i) || Unlink(s, s', i)
  }

  ghost predicate StepOf(job: Job, s: State, s': State, i: nat)
    requires i < |s.phase|
  {
    QuietStepOf(job, s, s', i) || Fault(s, s', i) || exists error :: Refuse(s, s', i, error)
  }

  ghost predicate Init(jobs: seq<Job>, s: State) {
    && s.phase == seq(|jobs|, i => Start)
    && forall n :: n in s.names ==> s.names[n] in s.data
  }

  ghost predicate Step(jobs: seq<Job>, s: State, s': State) {
    exists i :: 0 <= i < |jobs| && |s.phase| == |jobs| && StepOf(jobs[i], s, s', i)
  }

  // The k-th state of the run comes from the one before it.
  ghost predicate StepAt(jobs: seq<Job>, run: seq<State>, k: nat) {
    0 < k < |run| ==> Step(jobs, run[k - 1], run[k])
  }

  ghost predicate Run(jobs: seq<Job>, run: seq<State>) {
    run != [] && Init(jobs, run[0]) && forall k :: StepAt(jobs, run, k)
  }

  // ---- The invariant ----

  // The names a writer has put into the directory.
  function Owned(p: Phase): set<string> {
    match p
    case Copying(temp, _) => {temp}
    case Linking(temp, _, _) => {temp}
    case Linked(temp, _, name) => {temp, name}
    case Cleaning(temp, _, _) => {temp}
    case Done(_, name) => {name}
    case _ => {}
  }

  predicate HasFile(p: Phase) {
    !p.Start? && !p.GaveUp?
  }

  // The file has its final name: the call succeeds.
  predicate Placed(p: Phase) {
    p.Linked? || p.Done?
  }

  // The directory, as it was before (start), has one writer's part right.
  ghost predicate WriterOk(job: Job, start: State, s: State, p: Phase) {
    && (HasFile(p) ==>
         && p.ino !in start.data && p.ino in s.data
         && (forall n :: n in Owned(p) ==> n !in start.names && n in s.names && s.names[n] == p.ino))
    && (p.Copying? ==> s.data[p.ino] <= job.Content())
    && (p.Linking? ==> p.tried <= |job.names|)
    && (p.Linking? || Placed(p) ==> s.data[p.ino] == job.Content() && job.Accepted())
    && (Placed(p) ==> p.name in job.names)
    && (p.Linked? ==> p.name != p.temp)
  }

  ghost predicate Inv(jobs: seq<Job>, start: State, s: State) {
    && |s.phase| == |jobs|
    && (forall n :: n in start.names ==> n in s.names && s.names[n] == start.names[n])
    && (forall ino :: ino in start.data ==> ino in s.data && s.data[ino] == start.data[ino])
    && (forall i :: 0 <= i < |jobs| ==> WriterOk(jobs[i], start, s, s.phase[i]))
    && (forall i, j :: 0 <= i < j < |jobs| ==> Apart(s.phase[i], s.phase[j]))
    && (forall n :: n in s.names && n !in start.names ==> exists i :: 0 <= i < |jobs| && n in Owned(s.phase[i]))
  }

  // Two writers share neither inodes nor names.
  predicate Apart(p: Phase, q: Phase) {
    HasFile(p) && HasFile(q) ==> p.ino != q.ino && Owned(p) !! Owned(q)
  }

  lemma InvInit(jobs: seq<Job>, s: State)
    requires Init(jobs, s)
    ensures Inv(jobs, s, s)
  {
  }

  lemma InvStep(jobs: seq<Job>, start: State, s: State, s': State)
    requires Init(jobs, start) && Inv(jobs, start, s) && Step(jobs, s, s')
    ensures Inv(jobs, start, s')
  {
    var i :| 0 <= i < |jobs| && StepOf(jobs[i], s, s', i);
    WriterStep(jobs[i], start, s, s', i);
    FrameStep(jobs, start, s, s', i);
  }

  // What a step of writer i changes: its own phase, its own inode, and names
  // that were its own or free.
  ghost predicate OwnChanges(s: State, s': State, i: nat)
    requires i < |s.phase| == |s'.phase|
  {
    var p, p' := s.phase[i], s'.phase[i];
    && s'.phase == s.phase[i := p']
    && (forall n :: n in s.names && n !in Owned(p) ==> n in s'.names && s'.names[n] == s.names[n])
    && (forall n :: n in s'.names && n !in Owned(p') ==> n in s.names && n !in Owned(p))
    && (forall n :: n in Owned(p') ==> n in Owned(p) || n !in s.names)
    && (HasFile(p') ==> if HasFile(p) then p'.ino == p.ino else p'.ino !in s.data)
    && (forall ino :: ino in s.data && !(HasFile(p) && ino == p.ino) ==> ino in s'.data && s'.data[ino] == s.data[ino])
  }

  lemma WriterStep(job: Job, start: State, s: State, s': State, i: nat)
    requires i < |s.phase| && StepOf(job, s, s', i) && WriterOk(job, start, s, s.phase[i])
    requires forall n :: n in start.names ==> n in s.names
    requires forall ino :: ino in start.data ==> ino in s.data
    ensures |s'.phase| == |s.phase| && OwnChanges(s, s', i) && WriterOk(job, start, s', s'.phase[i])
  {
    if QuietStepOf(job, s, s', i) {
      QuietWriterStep(job, start, s, s', i);
    } else if error :| Refuse(s, s', i, error) {
    } else {
      assert Fault(s, s', i);
    }
  }

  lemma QuietWriterStep(job: Job, start: State, s: State, s': State, i: nat)
    requires i < |s.phase| && QuietStepOf(job, s, s', i) && WriterOk(job, start, s, s.phase[i])
    requires forall n :: n in start.names ==> n in s.names
    requires forall ino :: ino in start.data ==> ino in s.data
    ensures |s'.phase| == |s.phase| && OwnChanges(s, s', i) && WriterOk(job, start, s', s'.phase[i])
  {
    if temp, ino :| Create(s, s', i, temp, ino) {
      CreateStep(job, start, s, s', i, temp, ino);
    } else if n :| CopySome(job, s, s', i, n) {
      CopyStep(job, start, s, s', i, n);
    } else if CopyDone(job, s, s', i) || Fail(job, s, s', i) {
    } else if LinkNext(job, s, s', i) {
      LinkStep(job, start, s, s', i);
    } else {
      UnlinkStep(job, start, s, s', i);
    }
  }

  lemma CreateStep(job: Job, start: State, s: State, s': State, i: nat, temp: string, ino: Ino)
    requires i < |s.phase| && Create(s, s', i, temp, ino) && WriterOk(job, start, s, s.phase[i])
    requires forall n :: n in start.names ==> n in s.names
    requires forall ino :: ino in start.data ==> ino in s.data
    ensures |s'.phase| == |s.phase| && OwnChanges(s, s', i) && WriterOk(job, start, s', s'.phase[i])
  {
  }

  lemma LinkStep(job: Job, start: State, s: State, s': State, i: nat)
    requires i < |s.phase| && LinkNext(job, s, s', i) && WriterOk(job, start, s, s.phase[i])
    requires forall n :: n in start.names ==> n in s.names
    ensures |s'.phase| == |s.phase| && OwnChanges(s, s', i) && WriterOk(job, start, s', s'.phase[i])
  {
  }

  lemma UnlinkStep(job: Job, start: State, s: State, s': State, i: nat)
    requires i < |s.phase| && Unlink(s, s', i) && WriterOk(job, start, s, s.phase[i])
    ensures |s'.phase| == |s.phase| && OwnChanges(s, s', i) && WriterOk(job, start, s', s'.phase[i])
  {
  }

  lemma CopyStep(job: Job, start: State, s: State, s': State, i: nat, n: nat)
    requires i < |s.phase| && CopySome(job, s, s', i, n) && WriterOk(job, start, s, s.phase[i])
    ensures s'.phase == s.phase && OwnChanges(s, s', i) && WriterOk(job, start, s', s'.phase[i])
  {
    var ino := s.phase[i].ino;
    var done := |s.data[ino]|;
    assert s.data[ino] == job.Content()[..done];
    assert s'.data[ino] == job.Content()[..done + n];
    assert s.phase[i := s.phase[i]] == s.phase;
  }

  // Such a step keeps the invariant of all writers.
  lemma FrameStep(jobs: seq<Job>, start: State, s: State, s': State, i: nat)
    requires Init(jobs, start) && Inv(jobs, start, s) && i < |jobs| == |s'.phase|
    requires OwnChanges(s, s', i) && WriterOk(jobs[i], start, s', s'.phase[i])
    ensures Inv(jobs, start, s')
  {
    assert WriterOk(jobs[i], start, s, s.phase[i]);
    forall j | 0 <= j < |jobs| && j != i
      ensures WriterOk(jobs[j], start, s', s'.phase[j])
      ensures Apart(s'.phase[i], s'.phase[j]) && Apart(s'.phase[j], s'.phase[i])
    {
      OtherWriter(jobs[j], start, s, s', i, j);
    }
    forall j, k | 0 <= j < k < |jobs| ensures Apart(s'.phase[j], s'.phase[k]) {
      assert Apart(s.phase[j], s.phase[k]);
    }
    NewNamesOwned(jobs, start, s, s', i);
  }

  lemma OtherWriter(job: Job, start: State, s: State, s': State, i: nat, j: nat)
    requires i < |s.phase| == |s'.phase| && j < |s.phase| && i != j && OwnChanges(s, s', i)
    requires WriterOk(job, start, s, s.phase[j])
    requires Apart(s.phase[i], s.phase[j]) || Apart(s.phase[j], s.phase[i])
    ensures WriterOk(job, start, s', s'.phase[j])
    ensures Apart(s'.phase[i], s'.phase[j]) && Apart(s'.phase[j], s'.phase[i])
  {
    var p := s.phase[j];
    assert s'.phase[j] == p;
    if HasFile(p) {
      forall n | n in Owned(p) ensures n in s.names && n !in Owned(s.phase[i]) && n !in Owned(s'.phase[i]) {
      }
    }
  }

  lemma NewNamesOwned(jobs: seq<Job>, start: State, s: State, s': State, i: nat)
    requires Inv(jobs, start, s) && i < |jobs| == |s'.phase| && OwnChanges(s, s', i)
    ensures forall n :: n in s'.names && n !in start.names ==> exists j :: 0 <= j < |jobs| && n in Owned(s'.phase[j])
  {
    forall n | n in s'.names && n !in start.names
      ensures exists j :: 0 <= j < |jobs| && n in Owned(s'.phase[j])
    {
      if n !in Owned(s'.phase[i]) {
        var j :| 0 <= j < |jobs| && n in Owned(s.phase[j]);
        assert s'.phase[j] == s.phase[j];
      }
    }
  }

  lemma {:induction false} RunKeepsInv(jobs: seq<Job>, run: seq<State>, k: nat)
    requires Run(jobs, run) && k < |run|
    ensures Inv(jobs, run[0], run[k])
  {
    if k == 0 {
      InvInit(jobs, run[0]);
    } else {
      RunKeepsInv(jobs, run, k - 1);
      assert StepAt(jobs, run, k);
      InvStep(jobs, run[0], run[k - 1], run[k]);
    }
  }

  // ---- What every run guarantees ----

  // At every moment: what was in the directory is there unchanged, and every
  // other name is a running writer's temp file or the final name of exactly one
  // writer, holding what its copy takes, which is within the limit.
  lemma NothingOverwritten(jobs: seq<Job>, run: seq<State>, k: nat, n: string)
    requires Run(jobs, run) && k < |run|
    ensures n in run[0].names ==>
      && n in run[k].names && run[k].names[n] == run[0].names[n]
      && run[0].names[n] in run[0].data && run[0].names[n] in run[k].data
      && run[k].data[run[0].names[n]] == run[0].data[run[0].names[n]]
    ensures |run[k].phase| == |jobs|
    ensures n in run[k].names && n !in run[0].names ==>
      exists i :: 0 <= i < |jobs| && n in Owned(run[k].phase[i]) && HoldsPayload(jobs[i], run[k], run[k].phase[i], n)
  {
    RunKeepsInv(jobs, run, k);
    if n in run[k].names && n !in run[0].names {
      NewNameHolds(jobs, run[0], run[k], n);
    }
  }

  lemma NewNameHolds(jobs: seq<Job>, start: State, s: State, n: string)
    requires Inv(jobs, start, s) && n in s.names && n !in start.names
    ensures exists i :: 0 <= i < |jobs| && n in Owned(s.phase[i]) && HoldsPayload(jobs[i], s, s.phase[i], n)
  {
    var i :| 0 <= i < |jobs| && n in Owned(s.phase[i]);
    OwnedNameHolds(jobs[i], start, s, s.phase[i], n);
  }

  lemma OwnedNameHolds(job: Job, start: State, s: State, p: Phase, n: string)
    requires WriterOk(job, start, s, p) && n in Owned(p)
    ensures HoldsPayload(job, s, p, n)
  {
  }

  ghost predicate HoldsPayload(job: Job, s: State, p: Phase, n: string) {
    && (Placed(p) && n == p.name ==>
         n in s.names && s.names[n] in s.data && s.data[s.names[n]] == job.Content() && job.Accepted())
    && (!(Placed(p) && n == p.name) ==> !p.Done? && !p.Start? && !p.GaveUp? && n == p.temp)
  }

  // Once a writer's file has its final name, it keeps that name and its content
  // to the end of the run, and the name is one that the writer tried.
  lemma PlacedForGood(jobs: seq<Job>, run: seq<State>, i: nat, k: nat, m: nat)
    requires Run(jobs, run) && i < |jobs| && k <= m < |run|
    requires |run[k].phase| == |jobs| && Placed(run[k].phase[i])
    ensures |run[m].phase| == |jobs| && Placed(run[m].phase[i]) && run[m].phase[i].name == run[k].phase[i].name
    ensures var name := run[k].phase[i].name;
            && name in jobs[i].names && name !in run[0].names
            && name in run[m].names && run[m].names[name] in run[m].data
            && run[m].data[run[m].names[name]] == jobs[i].Content()
    // That is the whole payload, but for the largest limit.
    ensures var job := jobs[i];
            MIN_INT64 <= job.max <= MAX_INT64 ==>
              (job.Content() == job.data.bytes <==> job.max < MAX_INT64 || job.data.bytes == [])
  {
    NameKept(jobs, run, i, k, m);
    RunKeepsInv(jobs, run, m);
    PlacedContent(jobs, run[0], run[m], i);
    if MIN_INT64 <= jobs[i].max <= MAX_INT64 {
      WholePayloadCopied(jobs[i].data, jobs[i].max);
    }
  }

  lemma {:induction false} NameKept(jobs: seq<Job>, run: seq<State>, i: nat, k: nat, m: nat)
    requires Run(jobs, run) && i < |jobs| && k <= m < |run|
    requires |run[k].phase| == |jobs| && Placed(run[k].phase[i])
    ensures |run[m].phase| == |jobs| && Placed(run[m].phase[i]) && run[m].phase[i].name == run[k].phase[i].name
    decreases m
  {
    if k < m {
      NameKept(jobs, run, i, k, m - 1);
      RunLength(jobs, run, m);
      PlacedStays(jobs, run, i, m);
    }
  }

  lemma RunLength(jobs: seq<Job>, run: seq<State>, m: nat)
    requires Run(jobs, run) && m < |run|
    ensures |run[m].phase| == |jobs|
  {
    RunKeepsInv(jobs, run, m);
  }

  lemma PlacedContent(jobs: seq<Job>, start: State, s: State, i: nat)
    requires Inv(jobs, start, s) && i < |jobs| && Placed(s.phase[i])
    ensures var name := s.phase[i].name;
            && name in jobs[i].names && name !in start.names
            && name in s.names && s.names[name] in s.data && s.data[s.names[name]] == jobs[i].Content()
            && jobs[i].Accepted()
  {
    assert WriterOk(jobs[i], start, s, s.phase[i]);
    assert s.phase[i].name in Owned(s.phase[i]);
  }

  lemma PlacedStays(jobs: seq<Job>, run: seq<State>, i: nat, m: nat)
    requires Run(jobs, run) && i < |jobs| && 0 < m < |run|
    requires |run[m - 1].phase| == |jobs| == |run[m].phase| && Placed(run[m - 1].phase[i])
    ensures Placed(run[m].phase[i]) && run[m].phase[i].name == run[m - 1].phase[i].name
  {
    assert StepAt(jobs, run, m);
  }

  // Two writers never get the same name.
  lemma DistinctNames(jobs: seq<Job>, run: seq<State>, k: nat, i: nat, j: nat)
    requires Run(jobs, run) && k < |run| && i < j < |jobs|
    requires |run[k].phase| == |jobs| && Placed(run[k].phase[i]) && Placed(run[k].phase[j])
    ensures run[k].phase[i].name != run[k].phase[j].name
  {
    RunKeepsInv(jobs, run, k);
    var p, q := run[k].phase[i], run[k].phase[j];
    assert Apart(p, q);
    assert p.name in Owned(p) && q.name in Owned(q);
  }

  function FinalNames(ps: seq<Phase>): set<string> {
    set i | 0 <= i < |ps| && ps[i].Done? :: ps[i].name
  }

  function Successes(ps: seq<Phase>): nat {
    if ps == [] then 0 else Successes(ps[..|ps| - 1]) + if ps[|ps| - 1].Done? then 1 else 0
  }

  lemma {:induction false} OneNameEach(ps: seq<Phase>)
    requires forall i, j :: 0 <= i < j < |ps| ==> Apart(ps[i], ps[j])
    ensures |FinalNames(ps)| == Successes(ps)
  {
    if ps != [] {
      var front, last := ps[..|ps| - 1], ps[|ps| - 1];
      OneNameEach(front);
      LastName(ps);
    }
  }

  lemma LastName(ps: seq<Phase>)
    requires ps != [] && forall i, j :: 0 <= i < j < |ps| ==> Apart(ps[i], ps[j])
    ensures var front, last := ps[..|ps| - 1], ps[|ps| - 1];
            if last.Done? then last.name !in FinalNames(front) && FinalNames(ps) == FinalNames(front) + {last.name}
            else FinalNames(ps) == FinalNames(front)
  {
    var k := |ps| - 1;
    var front, last := ps[..k], ps[k];
    forall n ensures n in FinalNames(ps) <==> n in FinalNames(front) || (last.Done? && n == last.name) {
      if n in FinalNames(front) {
        var i :| 0 <= i < |front| && front[i].Done? && front[i].name == n;
        assert ps[i].Done? && ps[i].name == n;
      }
      if n in FinalNames(ps) {
        var i :| 0 <= i < |ps| && ps[i].Done? && ps[i].name == n;
        assert i < k ==> front[i].Done? && front[i].name == n;
      }
    }
    if last.Done? {
      forall i | 0 <= i < k && front[i].Done? ensures front[i].name != last.name {
        assert Apart(ps[i], last) && last.name in Owned(last) && ps[i].name in Owned(ps[i]);
      }
    }
  }

  // When every call has ended, the directory holds what it held before and
  // exactly one new name for each success. No temp file is left.
  lemma AllEnded(jobs: seq<Job>, run: seq<State>, k: nat)
    requires Run(jobs, run) && k < |run| && |run[k].phase| == |jobs|
    requires forall i :: 0 <= i < |jobs| ==> run[k].phase[i].Done? || run[k].phase[i].GaveUp?
    ensures run[k].names.Keys == run[0].names.Keys + FinalNames(run[k].phase)
    ensures run[0].names.Keys !! FinalNames(run[k].phase)
    ensures |run[k].names| == |run[0].names| + Successes(run[k].phase)
  {
    RunKeepsInv(jobs, run, k);
    var s := run[k];
    NewNames(jobs, run[0], s);
    OneNameEach(s.phase);
    assert |s.names.Keys| == |run[0].names.Keys| + |FinalNames(s.phase)|;
  }

  lemma NewNames(jobs: seq<Job>, start: State, s: State)
    requires Inv(jobs, start, s)
    requires forall i :: 0 <= i < |jobs| ==> s.phase[i].Done? || s.phase[i].GaveUp?
    ensures s.names.Keys == start.names.Keys + FinalNames(s.phase)
    ensures start.names.Keys !! FinalNames(s.phase)
  {
    FinalNamesNew(jobs, start, s);
    forall n | n in s.names && n !in start.names ensures n in FinalNames(s.phase) {
      NewNameIsFinal(jobs, start, s, n);
    }
    KeysSplit(s.names.Keys, start.names.Keys, FinalNames(s.phase));
  }

  lemma NewNameIsFinal(jobs: seq<Job>, start: State, s: State, n: string)
    requires Inv(jobs, start, s) && n in s.names && n !in start.names
    requires forall i :: 0 <= i < |jobs| ==> s.phase[i].Done? || s.phase[i].GaveUp?
    ensures n in FinalNames(s.phase)
  {
    var i :| 0 <= i < |jobs| && n in Owned(s.phase[i]);
    assert s.phase[i].Done? && s.phase[i].name == n;
  }

  lemma FinalNamesNew(jobs: seq<Job>, start: State, s: State)
    requires Inv(jobs, start, s)
    ensures FinalNames(s.phase) <= s.names.Keys && FinalNames(s.phase) !! start.names.Keys
  {
    forall i | 0 <= i < |s.phase| && s.phase[i].Done?
      ensures s.phase[i].name in s.names && s.phase[i].name !in start.names
    {
      PlacedContent(jobs, start, s, i);
    }
  }

  lemma KeysSplit(all: set<string>, before: set<string>, added: set<string>)
    requires before <= all && added <= all && added !! before && forall n :: n in all && n !in before ==> n in added
    ensures all == before + added
  {
  }

  // ---- A single writer ----

  // What the call answers if nothing fails but for the upload and the names that
  // are taken, its temp file's among them.
  function Verdict(job: Job, taken: set<string>): Result<string, FsError> {
    if CopyFails(job.data, job.max) then Err(WriteFileError)
    else if !job.Accepted() then Err(FileTooLarge)
    else match FirstFree(taken, job.names) case Some(k) => Ok(job.names[k]) case None => Err(FileExists)
  }

  ghost predicate SoloOk(job: Job, start: State, temp: string, s: State, p: Phase) {
    var taken := start.names.Keys + {temp};
    && (p.Copying? || p.Linking? || p.Linked? || p.Cleaning? ==> p.temp == temp)
    && (p.Copying? || p.Linking? || p.Cleaning? ==> s.names == start.names[temp := p.ino])
    && (p.Linking? ==> p.tried <= |job.names| && forall j :: 0 <= j < p.tried ==> job.names[j] in taken)
    && (p.Linked? ==> s.names == start.names[temp := p.ino][p.name := p.ino])
    && (p.Done? ==> s.names == start.names[p.name := p.ino])
    && (Placed(p) ==> Verdict(job, taken) == Ok(p.name))
    && (p.Cleaning? || p.GaveUp? ==> Verdict(job, taken) == Err(p.error))
    && (p.GaveUp? ==> s.names == start.names)
  }

  lemma SoloStep(job: Job, start: State, temp: string, s: State, s': State)
    requires |s.phase| == 1 && temp !in start.names && !s.phase[0].Start?
    requires WriterOk(job, start, s, s.phase[0]) && SoloOk(job, start, temp, s, s.phase[0])
    requires QuietStepOf(job, s, s', 0)
    ensures |s'.phase| == 1 && !s'.phase[0].Start? && SoloOk(job, start, temp, s', s'.phase[0])
  {
    if LinkNext(job, s, s', 0) {
      SoloLink(job, start, temp, s, s');
    } else if Unlink(s, s', 0) {
      SoloUnlink(job, start, temp, s, s');
    }
  }

  lemma SoloLink(job: Job, start: State, temp: string, s: State, s': State)
    requires |s.phase| == 1 && SoloOk(job, start, temp, s, s.phase[0]) && LinkNext(job, s, s', 0)
    requires WriterOk(job, start, s, s.phase[0])
    ensures |s'.phase| == 1 && !s'.phase[0].Start? && SoloOk(job, start, temp, s', s'.phase[0])
  {
  }

  lemma SoloUnlink(job: Job, start: State, temp: string, s: State, s': State)
    requires |s.phase| == 1 && SoloOk(job, start, temp, s, s.phase[0]) && Unlink(s, s', 0)
    requires WriterOk(job, start, s, s.phase[0]) && temp !in start.names
    ensures |s'.phase| == 1 && !s'.phase[0].Start? && SoloOk(job, start, temp, s', s'.phase[0])
  {
    assert Placed(s.phase[0]) ==> s.phase[0].name != temp;
  }

  ghost predicate QuietStepAt(job: Job, run: seq<State>, k: nat) {
    0 < k < |run| ==> |run[k - 1].phase| == 1 && QuietStepOf(job, run[k - 1], run[k], 0)
  }

  ghost predicate QuietRun(job: Job, run: seq<State>) {
    Run([job], run) && forall k :: QuietStepAt(job, run, k)
  }

  lemma {:induction false} SoloKept(job: Job, run: seq<State>, k: nat)
    requires QuietRun(job, run) && 1 <= k < |run|
    ensures |run[1].phase| == 1 && run[1].phase[0].Copying? && run[1].phase[0].temp !in run[0].names
    ensures |run[k].phase| == 1 && !run[k].phase[0].Start?
    ensures SoloOk(job, run[0], run[1].phase[0].temp, run[k], run[k].phase[0])
  {
    RunKeepsInv([job], run, k - 1);
    assert QuietStepAt(job, run, k);
    if k == 1 {
      assert run[0].phase == [Start];
    } else {
      SoloKept(job, run, k - 1);
      assert WriterOk([job][0], run[0], run[k - 1], run[k - 1].phase[0]);
      SoloStep(job, run[0], run[1].phase[0].temp, run[k - 1], run[k]);
    }
  }

  // The steps of one writer by itself end where SafeWriteFile's outcome says: in
  // a directory with the same names, with the temp name the first step picked,
  // and with nothing failing but for the upload.
  lemma SoloRunEndsAsWritten(job: Job, run: seq<State>, k: nat, t: Inode, dir: Path, cfg: Settings,
                             desired: string, env: Env)
    requires QuietRun(job, run) && 1 <= k < |run|
    requires |run[1].phase| == 1 && run[1].phase[0].Copying? ==> env.tempName == run[1].phase[0].temp
    requires IsDir(t, dir) && Entries(t, dir).Keys == run[0].names.Keys && env.Quiet()
    requires job == Job(job.data, cfg.maxBytes, Candidates(desired, env.stamps))
    ensures |run[k].phase| == 1
    ensures var p, outcome := run[k].phase[0], WriteOutcome(t, dir, cfg, desired, job.data, env);
            && (p.Done? ==>
                 && outcome == Ok(p.name) && run[k].names == run[0].names[p.name := p.ino]
                 && p.ino in run[k].data && run[k].data[p.ino] == Copied(job.data, cfg.maxBytes))
            && (p.GaveUp? ==> outcome == Err(p.error) && run[k].names == run[0].names)
  {
    SoloKept(job, run, k);
    RunKeepsInv([job], run, k);
    assert WriterOk([job][0], run[0], run[k], run[k].phase[0]);
    VerdictIsOutcome(job, t, dir, cfg, desired, env);
  }

  lemma VerdictIsOutcome(job: Job, t: Inode, dir: Path, cfg: Settings, desired: string, env: Env)
    requires IsDir(t, dir) && env.Quiet() && env.tempName !in Entries(t, dir)
    requires job == Job(job.data, cfg.maxBytes, Candidates(desired, env.stamps))
    ensures WriteOutcome(t, dir, cfg, desired, job.data, env)
            == Verdict(job, Entries(t, dir).Keys + {env.tempName})
  {
    var m := Entries(t, dir);
    assert m[env.tempName := File(job.Content())].Keys == m.Keys + {env.tempName};
  }

  // A writer that has its temp file and has not ended can go on without a fault.
  lemma NeverStuck(job: Job, start: State, s: State, i: nat)
    requires i < |s.phase| && WriterOk(job, start, s, s.phase[i]) && HasFile(s.phase[i]) && !s.phase[i].Done?
    ensures exists s' :: QuietStepOf(job, s, s', i) && s' != s
  {
    var p := s.phase[i];
    if p.Copying? && |s.data[p.ino]| < |job.Content()| {
      var done := |s.data[p.ino]|;
      var s' := s.(data := s.data[p.ino := s.data[p.ino] + job.Content()[done..done + 1]]);
      assert CopySome(job, s, s', i, 1) && |s'.data[p.ino]| == done + 1;
      assert QuietStepOf(job, s, s', i) && s' != s;
    } else {
      var q := NextPhase(job, s, p);
      var names := if q.Linked? then s.names[q.name := q.ino]
                   else if q.Done? || q.GaveUp? then s.names - {p.temp} else s.names;
      var s' := State(names, s.data, s.phase[i := q]);
      assert s'.phase[i] != s.phase[i];
      assert CopyDone(job, s, s', i) || Fail(job, s, s', i) || LinkNext(job, s, s', i) || Unlink(s, s', i);
      assert QuietStepOf(job, s, s', i) && s' != s;
    }
  }

  // What comes next for a writer that has copied all.
  function NextPhase(job: Job, s: State, p: Phase): Phase
    requires HasFile(p) && !p.Done? && (p.Linking? ==> p.tried <= |job.names|)
  {
    match p
    case Copying(temp, ino) =>
      if job.Accepted() then Linking(temp, ino, 0)
      else Cleaning(temp, ino, if CopyFails(job.data, job.max) then WriteFileError else FileTooLarge)
    case Linking(temp, ino, tried) =>
      if tried == |job.names| then Cleaning(temp, ino, FileExists)
      else if job.names[tried] in s.names then Linking(temp, ino, tried + 1)
      else Linked(temp, ino, job.names[tried])
    case Linked(temp, ino, name) => Done(ino, name)
    case Cleaning(temp, ino, error) => GaveUp(error)
  }

  // ---- The rename fallback among other writers ----

  // os.Rename of writer i's temp file: it takes the name from whoever has it. What
  // os.Stat said of the name was said at an earlier step.
  ghost predicate RenameOver(s: State, s': State, i: nat, name: string)
    requires i < |s.phase|
  {
    && s.phase[i].Linking?
    && var Linking(temp, ino, _) := s.phase[i];
       s' == s.(names := (s.names - {temp})[name := ino], phase := s.phase[i := Done(ino, name)])
  }

  // The file that was under the name is still under it, with the same content.
  predicate StillThere(s: State, s': State, n: string) {
    && n in s.names && n in s'.names && s'.names[n] == s.names[n]
    && s.names[n] in s.data && s.names[n] in s'.data && s'.data[s.names[n]] == s.data[s.names[n]]
  }

  // A rename destroys exactly what has its name: of what was there from the start
  // and of the other writers' files, placed or temporary, all else stays.
  lemma RenameDestroysExactly(jobs: seq<Job>, start: State, s: State, s': State, i: nat, name: string)
    requires Inv(jobs, start, s) && Init(jobs, start) && i < |jobs| && RenameOver(s, s', i, name)
    ensures forall n :: n in start.names ==> (StillThere(s, s', n) <==> n != name)
    ensures forall j :: 0 <= j < |jobs| && j != i && HasFile(s.phase[j]) ==>
              forall n :: n in Owned(s.phase[j]) ==> (StillThere(s, s', n) <==> n != name)
  {
    assert WriterOk(jobs[i], start, s, s.phase[i]);
    forall n | n in start.names
      ensures StillThere(s, s', n) <==> n != name
    {
      assert s.phase[i].temp in Owned(s.phase[i]);
    }
    forall j | 0 <= j < |jobs| && j != i && HasFile(s.phase[j])
      ensures forall n :: n in Owned(s.phase[j]) ==> (StillThere(s, s', n) <==> n != name)
    {
      RenameAndWriter(jobs, start, s, s', i, j, name);
    }
  }

  lemma RenameAndWriter(jobs: seq<Job>, start: State, s: State, s': State, i: nat, j: nat, name: string)
    requires Inv(jobs, start, s) && i < |jobs| && j < |jobs| && i != j && RenameOver(s, s', i, name)
    requires HasFile(s.phase[j])
    ensures forall n :: n in Owned(s.phase[j]) ==> (StillThere(s, s', n) <==> n != name)
  {
    assert WriterOk(jobs[i], start, s, s.phase[i]) && WriterOk(jobs[j], start, s, s.phase[j]);
    assert Apart(s.phase[i], s.phase[j]) || Apart(s.phase[j], s.phase[i]);
    assert s.phase[i].temp in Owned(s.phase[i]);
  }

  // The fallback keeps the invariant, and so every other guarantee, exactly when
  // the name is free or its own temp name.
  lemma RenameKeepsInvExactly(jobs: seq<Job>, start: State, s: State, s': State, i: nat, name: string)
    requires Inv(jobs, start, s) && Init(jobs, start) && i < |jobs| && RenameOver(s, s', i, name)
    requires name in jobs[i].names
    ensures Inv(jobs, start, s') <==> name !in s.names || name == s.phase[i].temp
  {
    assert WriterOk(jobs[i], start, s, s.phase[i]);
    if name !in s.names || name == s.phase[i].temp {
      RenameWriterStep(jobs[i], start, s, s', i, name);
      FrameStep(jobs, start, s, s', i);
    } else if name in start.names {
      TakenFromStart(jobs[i], start, s, s', i, name);
    } else {
      TakenFromWriter(jobs, start, s, s', i, name);
    }
  }

  lemma RenameWriterStep(job: Job, start: State, s: State, s': State, i: nat, name: string)
    requires i < |s.phase| && WriterOk(job, start, s, s.phase[i]) && RenameOver(s, s', i, name)
    requires forall n :: n in start.names ==> n in s.names
    requires name in job.names && (name !in s.names || name == s.phase[i].temp)
    ensures |s'.phase| == |s.phase| && OwnChanges(s, s', i) && WriterOk(job, start, s', s'.phase[i])
  {
  }

  lemma TakenFromStart(job: Job, start: State, s: State, s': State, i: nat, name: string)
    requires (forall n :: n in start.names ==> start.names[n] in start.data) && i < |s.phase|
    requires WriterOk(job, start, s, s.phase[i]) && RenameOver(s, s', i, name) && name in start.names
    ensures s'.names[name] != start.names[name]
  {
  }

  lemma TakenFromWriter(jobs: seq<Job>, start: State, s: State, s': State, i: nat, name: string)
    requires Inv(jobs, start, s) && i < |jobs| && RenameOver(s, s', i, name)
    requires name in s.names && name !in start.names && name != s.phase[i].temp
    ensures !Inv(jobs, start, s')
  {
    var j :| 0 <= j < |jobs| && name in Owned(s.phase[j]);
    assert s'.phase[j] == s.phase[j] && HasFile(s.phase[j]);
    assert WriterOk(jobs[j], start, s, s.phase[j]) && WriterOk(jobs[i], start, s, s.phase[i]);
    assert Apart(s.phase[i], s.phase[j]) || Apart(s.phase[j], s.phase[i]);
    assert !WriterOk(jobs[j], start, s', s'.phase[j]);
  }

  // Only a writer's own names lead to its file.
  lemma NamesOfWriter(jobs: seq<Job>, start: State, s: State, j: nat, n: string)
    requires Inv(jobs, start, s) && Init(jobs, start) && j < |jobs| && HasFile(s.phase[j])
    requires n in s.names && s.names[n] == s.phase[j].ino
    ensures n in Owned(s.phase[j])
  {
    assert WriterOk(jobs[j], start, s, s.phase[j]);
    if n !in start.names {
      var k :| 0 <= k < |jobs| && n in Owned(s.phase[k]);
      assert WriterOk(jobs[k], start, s, s.phase[k]);
      assert Apart(s.phase[j], s.phase[k]) || Apart(s.phase[k], s.phase[j]) || j == k;
    }
  }

  // Where no link works, two uploads that both found the name free rename onto it
  // one after the other: no name leads to the earlier one's file any more.
  lemma LaterRenameWins(jobs: seq<Job>, start: State, s: State, s1: State, s2: State, i: nat, j: nat, name: string)
    requires Inv(jobs, start, s) && Init(jobs, start) && i < |jobs| && j < |jobs| && i != j
    requires RenameOver(s, s1, j, name) && s1.phase[i].Linking? && RenameOver(s1, s2, i, name)
    ensures s1.phase[j] == Done(s.phase[j].ino, name) && s1.names[name] == s.phase[j].ino
    ensures s2.phase[j] == Done(s.phase[j].ino, name) && s.phase[j].ino !in s2.names.Values
  {
    assert WriterOk(jobs[i], start, s, s.phase[i]) && WriterOk(jobs[j], start, s, s.phase[j]);
    assert Apart(s.phase[i], s.phase[j]) || Apart(s.phase[j], s.phase[i]);
    forall n | n in s2.names
      ensures s2.names[n] != s.phase[j].ino
    {
      if n in s.names && s.names[n] == s.phase[j].ino {
        NamesOfWriter(jobs, start, s, j, n);
      }
    }
  }

  // A concrete loss: two uploads of one name. The first one's os.Stat finds the
  // name free, the second is placed there and ends, and the first renames over it.
  const RACERS := [Job(Reader([], false), 0, ["a"]), Job(Reader([1], false), 1, ["a"])]

  lemma RunOn(jobs: seq<Job>, run: seq<State>, s: State, i: nat) returns (more: seq<State>)
    requires Run(jobs, run) && i < |jobs| == |run[|run| - 1].phase| && StepOf(jobs[i], run[|run| - 1], s, i)
    ensures more == run + [s] && Run(jobs, more)
  {
    more := run + [s];
    assert Step(jobs, run[|run| - 1], s);
    forall k: nat
      ensures StepAt(jobs, more, k)
    {
      assert StepAt(jobs, run, k);
    }
  }

  // Both have their temp files, and the first has copied and closed it.
  lemma FirstSeesFree() returns (run: seq<State>, s: State)
    ensures Run(RACERS, run) && run[|run| - 1] == s && "a" !in s.names
    ensures s == State(map["t" := 0], map[0 := []], [Linking("t", 0, 0), Start])
  {
    var s0 := State(map[], map[], [Start, Start]);
    assert s0.phase == seq(|RACERS|, i => Start);
    run := [s0];
    assert forall k :: StepAt(RACERS, run, k);
    var s1 := State(map["t" := 0], map[0 := []], [Copying("t", 0), Start]);
    assert Create(s0, s1, 0, "t", 0);
    run := RunOn(RACERS, run, s1, 0);
    s := State(map["t" := 0], map[0 := []], [Linking("t", 0, 0), Start]);
    assert CopyDone(RACERS[0], s1, s, 0);
    run := RunOn(RACERS, run, s, 0);
  }

  lemma SecondIsCopied(run: seq<State>, s: State) returns (more: seq<State>, s': State)
    requires Run(RACERS, run) && run[|run| - 1] == s
    requires s == State(map["t" := 0], map[0 := []], [Linking("t", 0, 0), Start])
    ensures Run(RACERS, more) && run <= more && more[|more| - 1] == s'
    ensures s' == State(map["t" := 0, "u" := 1], map[0 := [], 1 := [1]], [Linking("t", 0, 0), Linking("u", 1, 0)])
  {
    var p := Linking("t", 0, 0);
    var s1 := State(map["t" := 0, "u" := 1], map[0 := [], 1 := []], [p, Copying("u", 1)]);
    assert Create(s, s1, 1, "u", 1);
    more := RunOn(RACERS, run, s1, 1);
    var s2 := s1.(data := map[0 := [], 1 := [1]]);
    assert RACERS[1].Content() == [1] && s1.data[1] + RACERS[1].Content()[0..1] == [1];
    assert s2.data == s1.data[1 := [1]];
    assert CopySome(RACERS[1], s1, s2, 1, 1);
    more := RunOn(RACERS, more, s2, 1);
    s' := s2.(phase := [p, Linking("u", 1, 0)]);
    assert CopyDone(RACERS[1], s2, s', 1);
    more := RunOn(RACERS, more, s', 1);
  }

  lemma SecondIsPlaced(run: seq<State>, s: State) returns (more: seq<State>, s': State)
    requires Run(RACERS, run) && run[|run| - 1] == s
    requires s == State(map["t" := 0, "u" := 1], map[0 := [], 1 := [1]], [Linking("t", 0, 0), Linking("u", 1, 0)])
    ensures Run(RACERS, more) && run <= more && more[|more| - 1] == s'
    ensures s' == State(map["t" := 0, "a" := 1], map[0 := [], 1 := [1]], [Linking("t", 0, 0), Done(1, "a")])
  {
    var p := Linking("t", 0, 0);
    var s1 := State(map["t" := 0, "u" := 1, "a" := 1], s.data, [p, Linked("u", 1, "a")]);
    assert s1.names == s.names["a" := 1];
    assert LinkNext(RACERS[1], s, s1, 1);
    more := RunOn(RACERS, run, s1, 1);
    s' := State(map["t" := 0, "a" := 1], s.data, [p, Done(1, "a")]);
    assert s'.names == s1.names - {"u"};
    assert Unlink(s1, s', 1);
    more := RunOn(RACERS, more, s', 1);
  }

  lemma FallbackRaceDestroys() returns (run: seq<State>, seen: nat, s': State)
    ensures Run(RACERS, run) && seen < |run| && "a" !in run[seen].names
    ensures |run[seen].phase| == 2 && run[seen].phase[0] == Linking("t", 0, 0)
    ensures run[|run| - 1]
            == State(map["t" := 0, "a" := 1], map[0 := [], 1 := [1]], [Linking("t", 0, 0), Done(1, "a")])
    ensures RenameOver(run[|run| - 1], s', 0, "a") && s'.names == map["a" := 0] && s'.data[0] == []
  {
    var first, s := FirstSeesFree();
    seen := |first| - 1;
    run, s := SecondIsCopied(first, s);
    run, s := SecondIsPlaced(run, s);
    s' := State((s.names - {"t"})["a" := 0], s.data, s.phase[0 := Done(0, "a")]);
    assert s'.names == map["a" := 0];
  }
}
