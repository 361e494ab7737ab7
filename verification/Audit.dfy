// The audit logger: Log, Reopen and Close, interleaved around one mutex, while
// an external tool may move the file at the logger's path away.
//
// Files are opened and closed outside the mutex, so other calls get in between.
// Each step below is one critical section, or one file operation outside it.
module Audit {
  import opened Errors
  import opened Sequences

  // ---- The logger ----

  // What the mutex guards. A file is named by the number of its handle.
  datatype Guarded = Guarded(enabled: bool, file: Option<nat>)

  // Reopen takes the handle away, so that Log finds none while it rotates.
  function Taken(g: Guarded): Guarded {
    if g.enabled then g.(file := None) else g
  }

  function Shut(g: Guarded): Guarded {
    if g.enabled && g.file.Some? then Guarded(false, None) else g
  }

  class FileHandle {
    const id: nat
    var open: bool
    var text: string

    constructor (id: nat, text: string)
      ensures this.id == id && open && this.text == text
    {
      this.id := id;
      this.text := text;
      open := true;
    }

    // A write to a closed file fails.
    method Write(data: string) returns (ok: bool)
      modifies this
      ensures open == old(open) && ok == open
      ensures text == if ok then old(text) + data else old(text)
    {
      ok := open;
      if ok {
        text := text + data;
      }
    }

    method Close(succeeds: bool) returns (ok: bool)
      modifies this
      ensures !open && text == old(text) && ok == (old(open) && succeeds)
    {
      ok := open && succeeds;
      open := false;
    }
  }

  class AuditLogger {
    var file: FileHandle?
    var enabled: bool

    function View(): Guarded
      reads this
    {
      Guarded(enabled, if file == null then None else Some(file.id))
    }

    constructor (file: FileHandle?)
      ensures this.file == file && enabled == (file != null)
    {
      this.file := file;
      enabled := file != null;
    }

    // Log, from the lock on.
    method LogSection(data: string) returns (written: bool)
      modifies file
      ensures file != null && old(file.open) ==> written && file.text == old(file.text) + data
      ensures file == null || !old(file.open) ==> !written
      ensures file != null && !old(file.open) ==> file.text == old(file.text)
      ensures file != null ==> file.open == old(file.open)
    {
      if file == null {
        return false;
      }
      written := file.Write(data);
    }

    method Log(entry: string)
      modifies file
      ensures file != null && enabled && old(file.open) ==> file.text == old(file.text) + (entry + "\n")
      ensures file != null && !(enabled && old(file.open)) ==> file.text == old(file.text)
    {
      if !enabled {
        return;
      }
      var written := LogSection(entry + "\n");
    }

    method ReopenTake() returns (goOn: bool, oldFile: FileHandle?)
      modifies this
      ensures View() == Taken(old(View())) && goOn == old(enabled)
      ensures goOn ==> oldFile == old(file)
    {
      if !enabled {
        return false, null;
      }
      goOn, oldFile := true, file;
      file := null;
    }

    method ReopenInstall(f: FileHandle)
      modifies this
      ensures file == f && View() == old(View()).(file := Some(f.id))
    {
      file := f;
    }

    method ReopenDisable()
      modifies this
      ensures View() == old(View()).(enabled := false) && file == old(file)
    {
      enabled := false;
    }

    method CloseTake() returns (f: FileHandle?)
      modifies this
      ensures View() == Shut(old(View()))
      ensures f == if old(enabled) then old(file) else null
    {
      if !enabled || file == null {
        return null;
      }
      enabled := false;
      f := file;
      file := null;
    }

    // Reopen with nothing in between: `closes` and `newFile` say how the operating
    // system answers.
    method Reopen(closes: bool, newFile: FileHandle?) returns (ok: bool)
      modifies this, file
      ensures old(enabled) && old(file) != null ==> !old(file).open
      ensures !old(enabled) ==> ok && View() == old(View())
      ensures old(enabled) && old(file) != null && !(closes && old(file.open)) ==> !ok && View() == Guarded(true, None)
      ensures old(enabled) && (old(file) == null || (closes && old(file.open))) ==>
                ok == (newFile != null)
                && View() == Guarded(newFile != null, if newFile == null then None else Some(newFile.id))
      ensures old(file) != null ==> old(file).text == old(file.text)
    {
      var goOn, oldFile := ReopenTake();
      if !goOn {
        return true;
      }
      if oldFile != null {
        var closed := oldFile.Close(closes);
        if !closed {
          return false;
        }
      }
      if newFile == null {
        ReopenDisable();
        return false;
      }
      ReopenInstall(newFile);
      ok := true;
    }

    // Close with nothing in between.
    method Close(closes: bool) returns (ok: bool)
      modifies this, file
      ensures View() == Shut(old(View()))
      ensures old(enabled) && old(file) != null ==> !old(file).open && ok == (closes && old(file.open))
      ensures !(old(enabled) && old(file) != null) ==> ok && (old(file) != null ==> old(file).open == old(file.open))
      ensures old(file) != null ==> old(file).text == old(file.text)
    {
      var f := CloseTake();
      if f == null {
        return true;
      }
      ok := f.Close(closes);
    }
  }

  // ---- Calls as interleaved steps ----

  datatype Phase =
    | LogReady(entry: string)         // Log, past its look at `enabled`
    | ReopenClosing(handle: nat)
    | ReopenOpening
    | ReopenInstalling(handle: nat)
    | ReopenDisabling
    | ReopenStuck                     // Reopen, returned after a failed close
    | CloseClosing(handle: nat)
    | Over

  // A handle is open until it is closed once; it writes to one file.
  datatype Handle = Handle(closes: nat, file: nat)

  // `files` are the texts of all files there have been at the logger's path, and
  // `path` is the one that is there now.
  datatype State = State(guarded: Guarded, handles: seq<Handle>, files: seq<string>, path: Option<nat>, calls: seq<Phase>)

  // The first step of a call starts it; the others name the call they belong to.
  // `ok` is how the operating system answers.
  datatype Step =
    | LogCheck(entry: string)
    | LogWrite(call: nat, ok: bool)
    | ReopenTake
    | ReopenClose(call: nat, ok: bool)
    | ReopenOpen(call: nat, ok: bool)
    | ReopenInstall(call: nat)
    | ReopenDisable(call: nat)
    | CloseTake
    | CloseClose(call: nat, ok: bool)
    | Rotate // not a step of the program: the file at the path is moved away

  predicate Enabled(s: State, step: Step) {
    match step
    case LogWrite(c, _) => c < |s.calls| && s.calls[c].LogReady?
    case ReopenClose(c, _) => c < |s.calls| && s.calls[c].ReopenClosing?
    case ReopenOpen(c, _) => c < |s.calls| && s.calls[c].ReopenOpening?
    case ReopenInstall(c) => c < |s.calls| && s.calls[c].ReopenInstalling?
    case ReopenDisable(c) => c < |s.calls| && s.calls[c].ReopenDisabling?
    case CloseClose(c, _) => c < |s.calls| && s.calls[c].CloseClosing?
    case _ => true
  }

  function Begin(s: State, phase: Phase): State {
    s.(calls := s.calls + [phase])
  }

  function Advance(s: State, c: nat, phase: Phase): State
    requires c < |s.calls|
  {
    s.(calls := s.calls[c := phase])
  }

  function Closed(s: State, h: nat): State {
    if h < |s.handles| then s.(handles := s.handles[h := s.handles[h].(closes := s.handles[h].closes + 1)]) else s
  }

  // The file a Log writes to.
  function Target(s: State): Option<nat> {
    if s.guarded.file.Some? && s.guarded.file.value < |s.handles| then Some(s.handles[s.guarded.file.value].file)
    else None
  }

  // The file is open for appending.
  function Appended(s: State, data: string): State {
    var f := Target(s);
    if f.Some? && f.value < |s.files| then s.(files := s.files[f.value := s.files[f.value] + data]) else s
  }

  // os.OpenFile: the file at the path, or a new one.
  function Opened(s: State): State {
    var f := if s.path.Some? then s.path.value else |s.files|;
    s.(handles := s.handles + [Handle(0, f)],
       files := if s.path.Some? then s.files else s.files + [""],
       path := Some(f))
  }

  function Next(s: State, step: Step): State
    requires Enabled(s, step)
  {
    match step
    case LogCheck(entry) => Begin(s, if s.guarded.enabled then LogReady(entry) else Over)
    case LogWrite(c, ok) => Advance(if ok then Appended(s, s.calls[c].entry + "\n") else s, c, Over)
    case ReopenTake =>
      Begin(s.(guarded := Taken(s.guarded)),
            if !s.guarded.enabled then Over
            else if s.guarded.file.Some? then ReopenClosing(s.guarded.file.value)
            else ReopenOpening)
    case ReopenClose(c, ok) => Advance(Closed(s, s.calls[c].handle), c, if ok then ReopenOpening else ReopenStuck)
    case ReopenOpen(c, ok) =>
      if ok then Advance(Opened(s), c, ReopenInstalling(|s.handles|))
      else Advance(s, c, ReopenDisabling)
    case ReopenInstall(c) => Advance(s.(guarded := s.guarded.(file := Some(s.calls[c].handle))), c, Over)
    case ReopenDisable(c) => Advance(s.(guarded := s.guarded.(enabled := false)), c, Over)
    case CloseTake =>
      Begin(s.(guarded := Shut(s.guarded)),
            if s.guarded.enabled && s.guarded.file.Some? then CloseClosing(s.guarded.file.value) else Over)
    case CloseClose(c, _) => Advance(Closed(s, s.calls[c].handle), c, Over)
    case Rotate => s.(path := None)
  }

  predicate Legal(s: State, run: seq<Step>)
    decreases |run|
  {
    run == [] || (Enabled(s, run[0]) && Legal(Next(s, run[0]), run[1..]))
  }

  function After(s: State, run: seq<Step>): State
    requires Legal(s, run)
    decreases |run|
  {
    if run == [] then s else After(Next(s, run[0]), run[1..])
  }

  // A new logger with an open file.
  const START := State(Guarded(true, Some(0)), [Handle(0, 0)], [""], Some(0), [])

  // ---- Handle safety ----

  // The handle a call is about to close or to install.
  function Held(phase: Phase): Option<nat> {
    match phase
    case ReopenClosing(h) => Some(h)
    case ReopenInstalling(h) => Some(h)
    case CloseClosing(h) => Some(h)
    case _ => None
  }

  predicate Owned(s: State, owner: Option<nat>, h: nat) {
    if owner.None? then s.guarded.file == Some(h)
    else owner.value < |s.calls| && Held(s.calls[owner.value]) == Some(h)
  }

  // An open handle has at most one owner: the logger or one call.
  ghost predicate Inv(s: State) {
    && (forall h :: 0 <= h < |s.handles| ==> s.handles[h].closes <= 1)
    && (forall owner, h: nat :: Owned(s, owner, h) ==> h < |s.handles| && s.handles[h].closes == 0)
    && (forall owner, other, h: nat :: Owned(s, owner, h) && Owned(s, other, h) ==> owner == other)
  }

  lemma StartInv()
    ensures Inv(START)
  {
  }

  // Ownership passes from one owner to another, or stays.
  lemma InvPasses(s: State, s': State, from: Option<nat>, to: Option<nat>)
    requires Inv(s) && s'.handles == s.handles
    requires forall owner, h: nat :: Owned(s', owner, h) ==> Owned(s, if owner == to then from else owner, h)
    requires forall h: nat :: Owned(s', from, h) ==> from == to
    ensures Inv(s')
  {
    forall owner, other, h: nat | Owned(s', owner, h) && Owned(s', other, h)
      ensures owner == other
    {
      assert (if owner == to then from else owner) == (if other == to then from else other);
    }
  }

  lemma InvReopen(s: State, step: Step)
    requires Inv(s) && Enabled(s, step) && (step.ReopenTake? || step.ReopenInstall?)
    ensures Inv(Next(s, step))
  {
    if step.ReopenTake? {
      InvPasses(s, Next(s, step), if s.guarded.enabled then None else Some(|s.calls|), Some(|s.calls|));
    } else {
      InvPasses(s, Next(s, step), Some(step.call), None);
    }
  }

  lemma InvCloses(s: State, step: Step)
    requires Inv(s) && Enabled(s, step) && (step.ReopenClose? || step.CloseClose?)
    ensures Inv(Next(s, step))
  {
    var s' := Next(s, step);
    var mine := s.calls[step.call].handle;
    assert Owned(s, Some(step.call), mine);
    forall owner, h: nat | Owned(s', owner, h)
      ensures Owned(s, owner, h) && h != mine
    {
      assert owner != Some(step.call);
      assert Owned(s, owner, h);
    }
  }

  lemma InvOpens(s: State, step: Step)
    requires Inv(s) && Enabled(s, step) && step.ReopenOpen?
    ensures Inv(Next(s, step))
  {
    var s' := Next(s, step);
    forall owner, h: nat | Owned(s', owner, h)
      ensures Owned(s, owner, h) || (owner == Some(step.call) && h == |s.handles| && step.ok)
    {
    }
  }

  lemma InvWrites(s: State, step: Step)
    requires Inv(s) && Enabled(s, step) && (step.LogCheck? || step.LogWrite? || step.ReopenDisable? || step.Rotate?)
    ensures Inv(Next(s, step))
  {
    forall owner, h: nat | Owned(Next(s, step), owner, h)
      ensures Owned(s, owner, h)
    {
    }
  }

  lemma InvStep(s: State, step: Step)
    requires Inv(s) && Enabled(s, step)
    ensures Inv(Next(s, step))
  {
    match step
    case ReopenTake => InvReopen(s, step);
    case ReopenInstall(_) => InvReopen(s, step);
    case ReopenOpen(_, _) => InvOpens(s, step);
    case ReopenClose(_, _) => InvCloses(s, step);
    case CloseClose(_, _) => InvCloses(s, step);
    case CloseTake =>
      InvPasses(s, Next(s, step), if Shut(s.guarded) != s.guarded then None else Some(|s.calls|), Some(|s.calls|));
    case _ => InvWrites(s, step);
  }

  lemma {:induction false} RunKeepsInv(s: State, run: seq<Step>)
    requires Inv(s) && Legal(s, run)
    ensures Inv(After(s, run))
    decreases |run|
  {
    if run != [] {
      InvStep(s, run[0]);
      RunKeepsInv(Next(s, run[0]), run[1..]);
    }
  }

  // Whatever the interleaving, the handle a Log finds is open, and so is one a
  // Reopen or Close is about to close; no handle is ever closed twice.
  lemma {:induction false} HandlesAreSafe(run: seq<Step>, step: Step)
    requires Legal(START, run) && Enabled(After(START, run), step)
    ensures var s := After(START, run);
            && (step.LogWrite? && s.guarded.file.Some? ==>
                  s.guarded.file.value < |s.handles| && s.handles[s.guarded.file.value].closes == 0)
            && (step.ReopenClose? || step.CloseClose? ==>
                  s.calls[step.call].handle < |s.handles| && s.handles[s.calls[step.call].handle].closes == 0)
            && (forall h :: 0 <= h < |s.handles| ==> s.handles[h].closes <= 1)
  {
    StartInv();
    RunKeepsInv(START, run);
    var s := After(START, run);
    if s.guarded.file.Some? {
      assert Owned(s, None, s.guarded.file.value);
    }
    if step.ReopenClose? || step.CloseClose? {
      assert Owned(s, Some(step.call), s.calls[step.call].handle);
    }
  }

  // ---- No handle is lost, almost ----

  // Every open handle is the logger's file or in the hands of a call.
  ghost predicate NoneLost(s: State) {
    forall h: nat :: h < |s.handles| && s.handles[h].closes == 0 ==> exists owner :: Owned(s, owner, h)
  }

  // Who owns after a step what `owner` owned before it.
  function NewOwner(s: State, step: Step, owner: Option<nat>): Option<nat>
    requires Enabled(s, step)
  {
    if owner == None && (step.ReopenTake? || step.CloseTake?) && s.guarded.enabled then Some(|s.calls|)
    else if step.ReopenInstall? && owner == Some(step.call) then None
    else owner
  }

  lemma OwnerMoves(s: State, step: Step, owner: Option<nat>, h: nat)
    requires Inv(s) && Enabled(s, step) && Owned(s, owner, h) && !(step.ReopenInstall? && s.guarded.file.Some?)
    requires h < |Next(s, step).handles| && Next(s, step).handles[h].closes == 0
    ensures Owned(Next(s, step), NewOwner(s, step, owner), h)
  {
  }

  lemma NoneLostStep(s: State, step: Step)
    requires Inv(s) && NoneLost(s) && Enabled(s, step) && !(step.ReopenInstall? && s.guarded.file.Some?)
    ensures NoneLost(Next(s, step))
  {
    var s' := Next(s, step);
    forall h: nat | h < |s'.handles| && s'.handles[h].closes == 0
      ensures exists owner :: Owned(s', owner, h)
    {
      if h < |s.handles| {
        assert s.handles[h].closes == 0;
        var owner :| Owned(s, owner, h);
        OwnerMoves(s, step, owner, h);
      } else {
        assert Owned(s', Some(step.call), h);
      }
    }
  }

  // Nobody can close the handle any more.
  ghost predicate Lost(s: State, h: nat) {
    h < |s.handles| && s.handles[h].closes == 0 && forall owner :: !Owned(s, owner, h)
  }

  // A Reopen that installs its file over another's leaves that one without an owner.
  lemma InstallLoses(s: State, step: Step)
    requires Inv(s) && Enabled(s, step) && step.ReopenInstall? && s.guarded.file.Some?
    ensures Lost(Next(s, step), s.guarded.file.value) && !NoneLost(Next(s, step))
  {
    var s', h := Next(s, step), s.guarded.file.value;
    assert Owned(s, None, h);
    assert Owned(s, Some(step.call), s.calls[step.call].handle);
    forall owner
      ensures !Owned(s', owner, h)
    {
      if Owned(s', owner, h) && owner.Some? {
        assert Owned(s, owner, h);
      }
    }
  }

  // A step loses a handle exactly when it installs a file over an open one.
  lemma {:induction false} LossIsExact(s: State, step: Step)
    requires Inv(s) && NoneLost(s) && Enabled(s, step)
    ensures NoneLost(Next(s, step)) <==> !(step.ReopenInstall? && s.guarded.file.Some?)
  {
    if step.ReopenInstall? && s.guarded.file.Some? {
      InstallLoses(s, step);
    } else {
      NoneLostStep(s, step);
    }
  }

  lemma {:induction false} OneMoreStep(s: State, run: seq<Step>, step: Step)
    requires Legal(s, run) && Enabled(After(s, run), step)
    ensures Legal(s, run + [step]) && After(s, run + [step]) == Next(After(s, run), step)
    decreases |run|
  {
    if run == [] {
      assert (run + [step])[1..] == [];
    } else {
      OneMoreStep(Next(s, run[0]), run[1..], step);
      assert (run + [step])[1..] == run[1..] + [step];
    }
  }

  // A run that has lost no handle, and where it has got to.
  ghost predicate Keeps(run: seq<Step>, s: State) {
    Legal(START, run) && After(START, run) == s && Inv(s) && NoneLost(s)
  }

  lemma KeepsOn(run: seq<Step>, s: State, step: Step) returns (more: seq<Step>, s': State)
    requires Keeps(run, s) && Enabled(s, step) && !(step.ReopenInstall? && s.guarded.file.Some?)
    ensures more == run + [step] && s' == Next(s, step) && Keeps(more, s')
  {
    OneMoreStep(START, run, step);
    InvStep(s, step);
    NoneLostStep(s, step);
    more, s' := run + [step], Next(s, step);
  }

  lemma LostStep(s: State, step: Step, h: nat)
    requires Inv(s) && Lost(s, h) && Enabled(s, step)
    ensures Lost(Next(s, step), h)
  {
    var s', mine := Next(s, step), if step.ReopenInstall? then Some(step.call) else None;
    forall owner
      ensures !Owned(s', owner, h)
    {
      assert Owned(s', owner, h) ==> Owned(s, owner, h) || Owned(s, None, h) || Owned(s, mine, h);
    }
    if step.ReopenClose? || step.CloseClose? {
      assert Owned(s, Some(step.call), s.calls[step.call].handle);
    }
  }

  // No call ever closes an open handle without an owner.
  lemma {:induction false} LostForever(s: State, h: nat, run: seq<Step>)
    requires Inv(s) && Lost(s, h) && Legal(s, run)
    ensures Lost(After(s, run), h)
    decreases |run|
  {
    if run != [] {
      InvStep(s, run[0]);
      LostStep(s, run[0], h);
      LostForever(Next(s, run[0]), h, run[1..]);
    }
  }

  // A Reopen is under way that may still install a file.
  predicate Rotating(phase: Phase) {
    phase.ReopenClosing? || phase.ReopenOpening? || phase.ReopenInstalling?
  }

  ghost predicate OneReopen(s: State) {
    forall c, d :: 0 <= c < |s.calls| && 0 <= d < |s.calls| && Rotating(s.calls[c]) && Rotating(s.calls[d]) ==> c == d
  }

  // No two Reopens are under way at any moment of the run.
  ghost predicate NeverOverlap(s: State, run: seq<Step>)
    requires Legal(s, run)
    decreases |run|
  {
    OneReopen(s) && (run == [] || NeverOverlap(Next(s, run[0]), run[1..]))
  }

  // A Reopen under way finds no file installed.
  ghost predicate GapWhileRotating(s: State) {
    s.guarded.file.Some? ==> forall c :: 0 <= c < |s.calls| ==> !Rotating(s.calls[c])
  }

  lemma GapWhileRotatingStep(s: State, step: Step)
    requires GapWhileRotating(s) && OneReopen(s) && Enabled(s, step)
    ensures GapWhileRotating(Next(s, step)) && !(step.ReopenInstall? && s.guarded.file.Some?)
  {
    assert step.ReopenInstall? ==> Rotating(s.calls[step.call]);
  }

  // While Reopens do not overlap, no handle is lost.
  lemma {:induction false} LossNeedsOverlap(s: State, run: seq<Step>)
    requires Inv(s) && NoneLost(s) && GapWhileRotating(s) && Legal(s, run) && NeverOverlap(s, run)
    ensures NoneLost(After(s, run))
    decreases |run|
  {
    if run != [] {
      GapWhileRotatingStep(s, run[0]);
      InvStep(s, run[0]);
      NoneLostStep(s, run[0]);
      LossNeedsOverlap(Next(s, run[0]), run[1..]);
    }
  }

  // From the start: every run in which no two Reopens overlap keeps all handles.
  lemma {:induction false} OneAtATimeLosesNone(run: seq<Step>)
    requires Legal(START, run) && NeverOverlap(START, run)
    ensures NoneLost(After(START, run))
  {
    StartInv();
    assert Owned(START, None, 0);
    LossNeedsOverlap(START, run);
  }

  // Two overlapping Reopens get there: no call closes the file of the first.
  lemma OverlappingReopensLose() returns (run: seq<Step>, s: State)
    ensures Keeps(run, s) && Enabled(s, ReopenInstall(1)) && !NoneLost(Next(s, ReopenInstall(1)))
    ensures forall more :: Legal(Next(s, ReopenInstall(1)), more) ==> Lost(After(Next(s, ReopenInstall(1)), more), 1)
  {
    run, s := [], START;
    StartInv();
    assert Owned(s, None, 0);
    run, s := KeepsOn(run, s, ReopenTake);
    run, s := KeepsOn(run, s, ReopenTake);
    run, s := KeepsOn(run, s, ReopenClose(0, true));
    run, s := KeepsOn(run, s, ReopenOpen(0, true));
    run, s := KeepsOn(run, s, ReopenOpen(1, true));
    run, s := KeepsOn(run, s, ReopenInstall(0));
    InstallOverLoses(s, 1, 1);
  }

  // What is installed over is lost.
  lemma InstallOverLoses(s: State, c: nat, h: nat)
    requires Inv(s) && Enabled(s, ReopenInstall(c)) && s.guarded.file == Some(h)
    ensures var s' := Next(s, ReopenInstall(c));
            !NoneLost(s') && forall more :: Legal(s', more) ==> Lost(After(s', more), h)
  {
    var s' := Next(s, ReopenInstall(c));
    InstallLoses(s, ReopenInstall(c));
    InvStep(s, ReopenInstall(c));
    assert Lost(s', h);
    forall more | Legal(s', more)
      ensures Lost(After(s', more), h)
    {
      LostForever(s', h, more);
    }
  }

  // ---- Whole lines, in lock order ----

  // A line a call wrote, and the file it wrote it to.
  datatype Line = Line(call: nat, entry: string, file: nat)

  predicate Writes(s: State, step: Step) {
    Enabled(s, step) && step.LogWrite? && step.ok && Target(s).Some?
  }

  // The line a step writes, if it does.
  function LineOf(s: State, step: Step): seq<Line>
    requires Enabled(s, step)
  {
    if Writes(s, step) then [Line(step.call, s.calls[step.call].entry, Target(s).value)] else []
  }

  // All lines a run writes, in the order of their critical sections.
  function Lines(s: State, run: seq<Step>): seq<Line>
    requires Legal(s, run)
    decreases |run|
  {
    if run == [] then [] else LineOf(s, run[0]) + Lines(Next(s, run[0]), run[1..])
  }

  // What the lines leave in one file.
  function Text(lines: seq<Line>, f: nat): string {
    if lines == [] then ""
    else (if lines[0].file == f then lines[0].entry + "\n" else "") + Text(lines[1..], f)
  }

  function TextOf(s: State, f: nat): string {
    if f < |s.files| then s.files[f] else ""
  }

  // The handles and files in play have been opened.
  predicate Known(s: State) {
    && (s.guarded.file.Some? ==> s.guarded.file.value < |s.handles|)
    && (forall c :: 0 <= c < |s.calls| && Held(s.calls[c]).Some? ==> Held(s.calls[c]).value < |s.handles|)
    && (s.path.Some? ==> s.path.value < |s.files|)
    && (forall h :: 0 <= h < |s.handles| ==> s.handles[h].file < |s.files|)
  }

  lemma KnownStep(s: State, step: Step)
    requires Known(s) && Enabled(s, step)
    ensures Known(Next(s, step))
  {
    KnownCalls(s, step);
    if step.ReopenInstall? {
      assert Held(s.calls[step.call]).Some?;
    }
  }

  lemma KnownCalls(s: State, step: Step)
    requires Known(s) && Enabled(s, step)
    ensures var s' := Next(s, step);
            forall c :: 0 <= c < |s'.calls| && Held(s'.calls[c]).Some? ==> Held(s'.calls[c]).value < |s'.handles|
  {
  }

  lemma {:induction false} RunKeepsKnown(s: State, run: seq<Step>)
    requires Known(s) && Legal(s, run)
    ensures Known(After(s, run))
    decreases |run|
  {
    if run != [] {
      KnownStep(s, run[0]);
      RunKeepsKnown(Next(s, run[0]), run[1..]);
    }
  }

  lemma TextStep(s: State, step: Step, f: nat)
    requires Known(s) && Enabled(s, step)
    ensures TextOf(Next(s, step), f) == TextOf(s, f) + Text(LineOf(s, step), f)
  {
    var lines := LineOf(s, step);
    if lines != [] {
      assert Text(lines[1..], f) == "";
    }
  }

  lemma TextConcat(lines: seq<Line>, more: seq<Line>, f: nat)
    requires |lines| <= 1
    ensures Text(lines + more, f) == Text(lines, f) + Text(more, f)
  {
    if lines == [] {
      assert lines + more == more;
    } else {
      assert (lines + more)[1..] == more && lines[1..] == [];
    }
  }

  // A file holds the lines written to it, whole and in lock order, by whatever
  // handles they were written.
  lemma {:induction false} TextIsWholeLines(s: State, run: seq<Step>, f: nat)
    requires Known(s) && Legal(s, run)
    ensures TextOf(After(s, run), f) == TextOf(s, f) + Text(Lines(s, run), f)
    decreases |run|
  {
    if run == [] {
      assert TextOf(s, f) + "" == TextOf(s, f);
    } else {
      var s', line := Next(s, run[0]), LineOf(s, run[0]);
      var rest := Lines(s', run[1..]);
      KnownStep(s, run[0]);
      TextStep(s, run[0], f);
      TextIsWholeLines(s', run[1..], f);
      Associates(TextOf(s, f), Text(line, f), Text(rest, f));
      TextConcat(line, rest, f);
    }
  }

  // The call of the line began in the run, at step k, with the logger enabled.
  predicate BeganAt(s: State, run: seq<Step>, line: Line, k: nat) {
    && k < |run| && Legal(s, run[..k]) && run[k] == LogCheck(line.entry)
    && After(s, run[..k]).guarded.enabled && |After(s, run[..k]).calls| == line.call
  }

  // The line's call is past its check, or will begin with the logger enabled.
  ghost predicate CallOf(s: State, run: seq<Step>, line: Line) {
    if line.call < |s.calls| then s.calls[line.call] == LogReady(line.entry)
    else exists k :: BeganAt(s, run, line, k)
  }

  lemma BeganEarlier(s: State, run: seq<Step>, line: Line, k: nat)
    requires Legal(s, run) && run != [] && BeganAt(Next(s, run[0]), run[1..], line, k)
    ensures BeganAt(s, run, line, k + 1)
  {
    assert run[..k + 1][1..] == run[1..][..k];
  }

  lemma CallOfEarlier(s: State, run: seq<Step>, line: Line)
    requires Legal(s, run) && run != [] && CallOf(Next(s, run[0]), run[1..], line)
    ensures CallOf(s, run, line) && (run[0].LogWrite? ==> line.call != run[0].call)
  {
    var s' := Next(s, run[0]);
    if line.call >= |s'.calls| {
      var k :| BeganAt(s', run[1..], line, k);
      BeganEarlier(s, run, line, k);
    } else if line.call >= |s.calls| {
      assert run[..0] == [];
      assert BeganAt(s, run, line, 0);
    }
  }

  // Every line is the entry of a Log call that found the logger enabled, and no
  // call writes two.
  lemma {:induction false} LinesAreLogCalls(s: State, run: seq<Step>)
    requires Legal(s, run)
    ensures forall i :: 0 <= i < |Lines(s, run)| ==> CallOf(s, run, Lines(s, run)[i])
    ensures forall i, j :: 0 <= i < j < |Lines(s, run)| ==> Lines(s, run)[i].call != Lines(s, run)[j].call
    decreases |run|
  {
    if run != [] {
      var s' := Next(s, run[0]);
      var rest := Lines(s', run[1..]);
      LinesAreLogCalls(s', run[1..]);
      forall i | 0 <= i < |rest|
        ensures CallOf(s, run, rest[i]) && (run[0].LogWrite? ==> rest[i].call != run[0].call)
      {
        CallOfEarlier(s, run, rest[i]);
      }
    }
  }

  // What a reader of the file takes to be its lines.
  function ReadLines(line: string, text: string): seq<string>
    decreases |text|
  {
    if text == "" then []
    else if text[0] == '\n' then [line] + ReadLines("", text[1..])
    else ReadLines(line + [text[0]], text[1..])
  }

  lemma {:induction false} ReadOne(line: string, entry: string, text: string)
    requires '\n' !in entry
    ensures ReadLines(line, entry + "\n" + text) == [line + entry] + ReadLines("", text)
    decreases |entry|
  {
    var all := entry + "\n" + text;
    if entry == "" {
      assert all[1..] == text && line + entry == line;
    } else {
      assert all[1..] == entry[1..] + "\n" + text;
      assert line + [entry[0]] + entry[1..] == line + entry;
      ReadOne(line + [entry[0]], entry[1..], text);
    }
  }

  // The entries of the lines in one file.
  function EntriesIn(lines: seq<Line>, f: nat): seq<string> {
    if lines == [] then []
    else (if lines[0].file == f then [lines[0].entry] else []) + EntriesIn(lines[1..], f)
  }

  // Entries without newlines, as JSON has none, are read back one by one.
  lemma {:induction false} LinesReadBack(lines: seq<Line>, f: nat)
    requires forall i :: 0 <= i < |lines| ==> '\n' !in lines[i].entry
    ensures ReadLines("", Text(lines, f)) == EntriesIn(lines, f)
  {
    if lines != [] {
      if lines[0].file == f {
        ReadOne("", lines[0].entry, Text(lines[1..], f));
        assert "" + lines[0].entry == lines[0].entry;
        assert Text(lines, f) == lines[0].entry + "\n" + Text(lines[1..], f);
      } else {
        assert Text(lines, f) == Text(lines[1..], f) && EntriesIn(lines, f) == EntriesIn(lines[1..], f);
      }
      LinesReadBack(lines[1..], f);
    }
  }

  // ---- What Close achieves ----

  predicate SomeRotating(s: State) {
    exists c :: 0 <= c < |s.calls| && Rotating(s.calls[c])
  }

  predicate SomeLogReady(s: State) {
    exists c :: 0 <= c < |s.calls| && s.calls[c].LogReady?
  }

  // Nothing is written in the run.
  predicate Silent(s: State, run: seq<Step>)
    requires Legal(s, run)
    decreases |run|
  {
    run == [] || (!Writes(s, run[0]) && Silent(Next(s, run[0]), run[1..]))
  }

  predicate CanStillWrite(s: State) {
    s.guarded.enabled || ((s.guarded.file.Some? || SomeRotating(s)) && SomeLogReady(s))
  }

  lemma SilentStep(s: State, step: Step)
    requires !CanStillWrite(s) && Enabled(s, step)
    ensures !Writes(s, step) && !CanStillWrite(Next(s, step))
  {
    var s' := Next(s, step);
    forall c | 0 <= c < |s'.calls|
      ensures s'.calls[c].LogReady? ==> c < |s.calls| && s.calls[c].LogReady?
      ensures Rotating(s'.calls[c]) ==> SomeRotating(s)
    {
      if Rotating(s'.calls[c]) && c < |s.calls| {
        assert Rotating(s.calls[c]);
      }
    }
    if step.ReopenInstall? {
      assert Rotating(s.calls[step.call]);
    }
  }

  lemma {:induction false} SilentForever(s: State, run: seq<Step>)
    requires !CanStillWrite(s) && Legal(s, run)
    ensures Silent(s, run)
    decreases |run|
  {
    if run != [] {
      SilentStep(s, run[0]);
      SilentForever(Next(s, run[0]), run[1..]);
    }
  }

  // From here on a step that is allowed, then a run.
  lemma First(s: State, step: Step, run: seq<Step>) returns (more: seq<Step>)
    requires Enabled(s, step) && Legal(Next(s, step), run) && !Silent(Next(s, step), run)
    ensures more == [step] + run && Legal(s, more) && !Silent(s, more)
  {
    more := [step] + run;
    assert more[1..] == run;
  }

  // A Log past its check writes if there is a file.
  lemma LogWrites(s: State, log: nat) returns (run: seq<Step>)
    requires Known(s) && log < |s.calls| && s.calls[log].LogReady? && s.guarded.file.Some?
    ensures Legal(s, run) && !Silent(s, run)
  {
    run := [LogWrite(log, true)];
    assert run[1..] == [];
  }

  // It writes once a Reopen under way has installed its file.
  lemma InstallThenWrites(s: State, log: nat, c: nat) returns (run: seq<Step>)
    requires Known(s) && log < |s.calls| && s.calls[log].LogReady?
    requires c < |s.calls| && Rotating(s.calls[c])
    ensures Legal(s, run) && !Silent(s, run)
    decreases if s.calls[c].ReopenClosing? then 2 else if s.calls[c].ReopenOpening? then 1 else 0
  {
    var step := if s.calls[c].ReopenClosing? then ReopenClose(c, true)
                else if s.calls[c].ReopenOpening? then ReopenOpen(c, true)
                else ReopenInstall(c);
    KnownStep(s, step);
    if step.ReopenInstall? {
      run := LogWrites(Next(s, step), log);
    } else {
      run := InstallThenWrites(Next(s, step), log, c);
    }
    run := First(s, step, run);
  }

  // A new Log call on an enabled logger, after a new Reopen if there is no file.
  lemma EnabledWrites(s: State) returns (run: seq<Step>)
    requires Known(s) && s.guarded.enabled
    ensures Legal(s, run) && !Silent(s, run) && run[0] == LogCheck("")
  {
    var s1 := Next(s, LogCheck(""));
    KnownStep(s, LogCheck(""));
    if s.guarded.file.Some? {
      run := LogWrites(s1, |s.calls|);
    } else {
      KnownStep(s1, ReopenTake);
      run := InstallThenWrites(Next(s1, ReopenTake), |s.calls|, |s1.calls|);
      run := First(s1, ReopenTake, run);
    }
    run := First(s, LogCheck(""), run);
  }

  // Nothing is ever written from here on, exactly when the logger is disabled and
  // no Log past its check has a file or can still be given one.
  lemma {:induction false} SilenceIsExact(s: State)
    requires Known(s)
    ensures (forall run :: Legal(s, run) ==> Silent(s, run)) <==> !CanStillWrite(s)
  {
    if CanStillWrite(s) {
      if s.guarded.enabled {
        var run := EnabledWrites(s);
      } else {
        var log :| 0 <= log < |s.calls| && s.calls[log].LogReady?;
        if s.guarded.file.Some? {
          var run := LogWrites(s, log);
        } else {
          var c :| 0 <= c < |s.calls| && Rotating(s.calls[c]);
          var run := InstallThenWrites(s, log, c);
        }
      }
    } else {
      forall run | Legal(s, run)
        ensures Silent(s, run)
      {
        SilentForever(s, run);
      }
    }
  }

  // A Reopen is under way, or one gave up after failing to close the old file.
  predicate Reopening(phase: Phase) {
    Rotating(phase) || phase.ReopenDisabling? || phase.ReopenStuck?
  }

  ghost predicate NoReopening(s: State) {
    forall c :: 0 <= c < |s.calls| ==> !Reopening(s.calls[c])
  }

  lemma {:induction false} GapNeedsReopen(s: State, run: seq<Step>)
    requires s.guarded.enabled && s.guarded.file.None? ==> !NoReopening(s)
    requires Legal(s, run)
    ensures var end := After(s, run);
            end.guarded.enabled && end.guarded.file.None? ==> !NoReopening(end)
    decreases |run|
  {
    if run != [] {
      GapStep(s, run[0]);
      GapNeedsReopen(Next(s, run[0]), run[1..]);
    }
  }

  lemma GapStep(s: State, step: Step)
    requires s.guarded.enabled && s.guarded.file.None? ==> !NoReopening(s)
    requires Enabled(s, step)
    ensures var s' := Next(s, step);
            s'.guarded.enabled && s'.guarded.file.None? ==> !NoReopening(s')
  {
    var s' := Next(s, step);
    if s'.guarded.enabled && s'.guarded.file.None? {
      if step.ReopenTake? {
        assert Reopening(s'.calls[|s.calls|]);
      } else {
        var c :| 0 <= c < |s.calls| && Reopening(s.calls[c]);
        assert Reopening(s'.calls[c]);
      }
    }
  }

  // Only calls that have begun write in the run.
  ghost predicate OnlyStartedCallsWrite(s: State, run: seq<Step>)
    requires Legal(s, run)
  {
    forall i :: 0 <= i < |Lines(s, run)| ==> Lines(s, run)[i].call < |s.calls|
  }

  lemma {:induction false} DisabledStopsNewLogs(s: State, run: seq<Step>, n: nat)
    requires Legal(s, run) && !s.guarded.enabled && n <= |s.calls|
    requires forall c :: n <= c < |s.calls| ==> !s.calls[c].LogReady?
    ensures forall i :: 0 <= i < |Lines(s, run)| ==> Lines(s, run)[i].call < n
    decreases |run|
  {
    if run != [] {
      DisabledStopsNewLogs(Next(s, run[0]), run[1..], n);
    }
  }

  // The Log calls that begin after Close returned are no-ops, exactly unless Close
  // found an enabled logger without a file.
  lemma {:induction false} CloseStopsNewLogs(s: State)
    requires Known(s)
    ensures var closed := Next(s, CloseTake);
            (forall run :: Legal(closed, run) ==> OnlyStartedCallsWrite(closed, run))
            <==> !(s.guarded.enabled && s.guarded.file.None?)
  {
    var closed := Next(s, CloseTake);
    KnownStep(s, CloseTake);
    if closed.guarded.enabled {
      var run := NewLogWrites(closed);
      assert Lines(closed, run)[0].call >= |closed.calls|;
      assert !OnlyStartedCallsWrite(closed, run);
    } else {
      forall run | Legal(closed, run)
        ensures OnlyStartedCallsWrite(closed, run)
      {
        DisabledStopsNewLogs(closed, run, |closed.calls|);
      }
    }
  }

  lemma LinesFirst(s: State, step: Step, run: seq<Step>)
    requires Enabled(s, step) && Legal(Next(s, step), run)
    ensures Legal(s, [step] + run)
    ensures Lines(s, [step] + run) == LineOf(s, step) + Lines(Next(s, step), run)
  {
    assert ([step] + run)[1..] == run;
  }

  // A Reopen that has closed the old file goes on, and then a new Log writes.
  lemma OpenedThenLogged(s: State, c: nat, entry: string) returns (run: seq<Step>)
    requires Known(s) && s.guarded.enabled && c < |s.calls| && s.calls[c].ReopenOpening?
    ensures Legal(s, run)
    ensures Lines(s, run) == [Line(|s.calls|, entry, if s.path.Some? then s.path.value else |s.files|)]
  {
    var n := |s.calls|;
    var s1 := Next(s, ReopenOpen(c, true));
    var s2 := Next(s1, ReopenInstall(c));
    var s3 := Next(s2, LogCheck(entry));
    run := [LogWrite(n, true)] + [];
    LinesFirst(s3, LogWrite(n, true), []);
    LinesFirst(s2, LogCheck(entry), run);
    run := [LogCheck(entry)] + run;
    LinesFirst(s1, ReopenInstall(c), run);
    run := [ReopenInstall(c)] + run;
    LinesFirst(s, ReopenOpen(c, true), run);
    run := [ReopenOpen(c, true)] + run;
  }

  // On an enabled logger without a file: a new Log, a new Reopen, and the write.
  lemma NewLogWrites(s: State) returns (run: seq<Step>)
    requires Known(s) && s.guarded.enabled && s.guarded.file.None?
    ensures Legal(s, run) && Lines(s, run) != [] && Lines(s, run)[0].call >= |s.calls|
  {
    var s' := Next(s, ReopenTake);
    KnownStep(s, ReopenTake);
    run := OpenedThenLogged(s', |s.calls|, "");
    LinesFirst(s, ReopenTake, run);
    run := [ReopenTake] + run;
  }

  // A run that gets there from the start: Close comes between the two critical
  // sections of a Reopen and returns, and a Log that begins after it writes.
  lemma CloseInsideReopen(entry: string) returns (closed: State, more: seq<Step>)
    ensures Legal(START, [ReopenTake, CloseTake]) && closed == After(START, [ReopenTake, CloseTake])
    ensures closed.calls[1] == Over
    ensures Legal(closed, more) && Lines(closed, more) == [Line(|closed.calls|, entry, 0)]
  {
    var s := Next(START, ReopenTake);
    closed := Next(s, CloseTake);
    assert [ReopenTake, CloseTake][1..] == [CloseTake] && [CloseTake][1..] == [];
    var next := Next(closed, ReopenClose(0, true));
    more := OpenedThenLogged(next, 0, entry);
    LinesFirst(closed, ReopenClose(0, true), more);
    more := [ReopenClose(0, true)] + more;
  }

  // With no Reopen under way or given up, Close is final, exactly unless the
  // logger was disabled with its file still open and a Log is past its check.
  lemma {:induction false} CloseIsFinal(run: seq<Step>)
    requires Legal(START, run) && NoReopening(After(START, run))
    ensures var s := After(START, run);
            var closed := Next(s, CloseTake);
            (forall more :: Legal(closed, more) ==> Silent(closed, more))
            <==> !(!s.guarded.enabled && s.guarded.file.Some? && SomeLogReady(s))
  {
    var s := After(START, run);
    var closed := Next(s, CloseTake);
    GapNeedsReopen(START, run);
    RunKeepsKnown(START, run);
    KnownStep(s, CloseTake);
    SilenceIsExact(closed);
    assert forall c :: 0 <= c < |s.calls| ==> closed.calls[c] == s.calls[c];
    if SomeLogReady(closed) {
      var c :| 0 <= c < |closed.calls| && closed.calls[c].LogReady?;
      assert s.calls[c].LogReady?;
    }
    if SomeLogReady(s) {
      var c :| 0 <= c < |s.calls| && s.calls[c].LogReady?;
      assert closed.calls[c].LogReady?;
    }
    assert !SomeRotating(closed);
  }

  // A run that gets to the exception: a Log passes its check; of two overlapping
  // Reopens one installs its file and the other fails to open one and disables
  // the logger. Close then does nothing, and the Log writes.
  lemma CloseBeforeLateLog(entry: string) returns (run: seq<Step>, s: State)
    ensures Legal(START, run) && s == After(START, run) && NoReopening(s)
    ensures !s.guarded.enabled && s.guarded.file.Some? && SomeLogReady(s)
    ensures Legal(Next(s, CloseTake), [LogWrite(0, true)])
    ensures Lines(Next(s, CloseTake), [LogWrite(0, true)]) == [Line(0, entry, 0)]
  {
    run, s := LogThenTwoReopens(entry);
    run, s := Then(run, s, ReopenOpen(1, true));
    run, s := Then(run, s, ReopenOpen(2, false));
    run, s := Then(run, s, ReopenInstall(1));
    run, s := Then(run, s, ReopenDisable(2));
    LateLog(s, 0);
  }

  lemma LogThenTwoReopens(entry: string) returns (run: seq<Step>, s: State)
    ensures Legal(START, run) && s == After(START, run)
    ensures s == State(Guarded(true, None), [Handle(1, 0)], [""], Some(0),
                       [LogReady(entry), ReopenOpening, ReopenOpening])
  {
    run, s := [], START;
    run, s := Then(run, s, LogCheck(entry));
    run, s := Then(run, s, ReopenTake);
    run, s := Then(run, s, ReopenTake);
    run, s := Then(run, s, ReopenClose(1, true));
  }

  // A Log past its check writes although Close has been called on a disabled logger.
  lemma LateLog(s: State, c: nat)
    requires !s.guarded.enabled && Target(s).Some? && c < |s.calls| && s.calls[c].LogReady?
    ensures SomeLogReady(s) && Legal(Next(s, CloseTake), [LogWrite(c, true)])
    ensures Lines(Next(s, CloseTake), [LogWrite(c, true)]) == [Line(c, s.calls[c].entry, Target(s).value)]
  {
    LinesFirst(Next(s, CloseTake), LogWrite(c, true), []);
    assert [LogWrite(c, true)] + [] == [LogWrite(c, true)];
  }

  lemma Then(run: seq<Step>, s: State, step: Step) returns (more: seq<Step>, s': State)
    requires Legal(START, run) && s == After(START, run) && Enabled(s, step)
    ensures more == run + [step] && s' == Next(s, step) && Legal(START, more) && s' == After(START, more)
  {
    OneMoreStep(START, run, step);
    more, s' := run + [step], Next(s, step);
  }

  // ---- What Reopen is for ----

  // Reopen and then Log, with nothing in between and nothing failing.
  function RotateLog(s: State, entry: string): (run: seq<Step>) {
    var c := |s.calls|;
    [ReopenTake]
    + (if s.guarded.file.Some? then [ReopenClose(c, true)] else [])
    + [ReopenOpen(c, true), ReopenInstall(c), LogCheck(entry), LogWrite(c + 1, true)]
  }

  lemma LegalSteps(s: State, step: Step, rest: seq<Step>)
    requires Enabled(s, step) && Legal(Next(s, step), rest)
    ensures Legal(s, [step] + rest) && After(s, [step] + rest) == After(Next(s, step), rest)
  {
    assert ([step] + rest)[1..] == rest;
  }

  // Whatever the logger wrote to before, after a Reopen the entry goes to the
  // file at the path: a new one if the old was moved away, which keeps its text.
  lemma ReopenFollowsPath(s: State, entry: string)
    requires Known(s) && s.guarded.enabled
    ensures Legal(s, RotateLog(s, entry))
    ensures var s' := After(s, RotateLog(s, entry));
            && s'.guarded.enabled
            && (s.path.None? ==> s'.path == Some(|s.files|) && s'.files == s.files + [entry + "\n"])
            && (s.path.Some? ==> s'.path == s.path
                                 && s'.files == s.files[s.path.value := s.files[s.path.value] + (entry + "\n")])
  {
    var c := |s.calls|;
    var rest := [ReopenOpen(c, true), ReopenInstall(c), LogCheck(entry), LogWrite(c + 1, true)];
    var taken := Next(s, ReopenTake);
    if s.guarded.file.Some? {
      var closed := Next(taken, ReopenClose(c, true));
      OpenedIsLogged(closed, c, entry);
      LegalSteps(taken, ReopenClose(c, true), rest);
      LegalSteps(s, ReopenTake, [ReopenClose(c, true)] + rest);
      assert RotateLog(s, entry) == [ReopenTake] + ([ReopenClose(c, true)] + rest);
    } else {
      OpenedIsLogged(taken, c, entry);
      LegalSteps(s, ReopenTake, rest);
      assert RotateLog(s, entry) == [ReopenTake] + rest;
    }
  }

  lemma OpenedIsLogged(s: State, c: nat, entry: string)
    requires s.guarded.enabled && (s.path.Some? ==> s.path.value < |s.files|)
    requires |s.calls| == c + 1 && s.calls[c] == ReopenOpening
    ensures var run := [ReopenOpen(c, true), ReopenInstall(c), LogCheck(entry), LogWrite(c + 1, true)];
            && Legal(s, run)
            && var s' := After(s, run);
               && s'.guarded.enabled
               && (s.path.None? ==> s'.path == Some(|s.files|) && s'.files == s.files + [entry + "\n"])
               && (s.path.Some? ==> s'.path == s.path
                                    && s'.files == s.files[s.path.value := s.files[s.path.value] + (entry + "\n")])
  {
    var s1 := Next(s, ReopenOpen(c, true));
    var s2 := Next(s1, ReopenInstall(c));
    var s3 := Next(s2, LogCheck(entry));
    LegalSteps(s3, LogWrite(c + 1, true), []);
    LegalSteps(s2, LogCheck(entry), [LogWrite(c + 1, true)]);
    LegalSteps(s1, ReopenInstall(c), [LogCheck(entry), LogWrite(c + 1, true)]);
    LegalSteps(s, ReopenOpen(c, true), [ReopenInstall(c), LogCheck(entry), LogWrite(c + 1, true)]);
    assert "" + (entry + "\n") == entry + "\n";
  }
}
