// Login, logout and the session check, over the rate limiter and the session store.
//
// The handlers of different requests interleave; each step below is what one
// request does inside one critical section.
module Auth {
  import opened Errors
  import RateLimiting
  import Sessions

  // ---- The handlers, one request at a time ----

  datatype LoginOutcome = RateLimited | BadForm | WrongSecret | NoToken | LoggedIn(token: string)

  // `form` is None when the form does not parse and `token` is None when no
  // random token could be made; `stamp` is the clock as Create reads it.
  method HandleLogin(limiter: RateLimiting.RateLimiter, store: Sessions.SessionStore, secret: string,
                     ip: string, now: int, form: Option<string>,
                     token: Option<string>, stamp: int)
    returns (outcome: LoginOutcome)
    requires limiter.Valid() && store.Valid() && store !in limiter.Repr
    requires limiter.Repr !! store.sessions.Values
    modifies limiter.Repr, store
    ensures limiter.Valid() && store.Valid()
    ensures limiter.Contents == RateLimiting.Decide(old(limiter.Contents), ip, now, limiter.limit, limiter.window).0
    ensures outcome.RateLimited? <==> !RateLimiting.Decide(old(limiter.Contents), ip, now, limiter.limit, limiter.window).1
    ensures !outcome.RateLimited? ==>
              outcome == if form.None? then BadForm
                         else if form.value != secret then WrongSecret
                         else if token.None? then NoToken
                         else LoggedIn(token.value)
    ensures store.View() == if outcome.LoggedIn?
                            then Sessions.Created(old(store.View()), outcome.token, stamp, store.ttl)
                            else old(store.View())
  {
    var allowed := limiter.Allow(ip, now);
    if !allowed {
      return RateLimited;
    }
    if form.None? {
      return BadForm;
    }
    if form.value != secret {
      return WrongSecret;
    }
    if token.None? {
      return NoToken;
    }
    store.Create(token.value, stamp);
    outcome := LoggedIn(token.value);
  }

  // SessionMiddleware: the request goes on only with a session.
  method CheckSession(store: Sessions.SessionStore, cookie: Option<string>, now: int) returns (dispatched: bool)
    requires store.Valid()
    modifies store, store.sessions.Values
    ensures store.Valid()
    ensures dispatched <==> cookie.Some? && Sessions.Answers(old(store.View()), cookie.value, now)
    ensures store.View() == if cookie.Some? then Sessions.Got(old(store.View()), cookie.value, now) else old(store.View())
  {
    if cookie.None? {
      return false;
    }
    var session := store.Get(cookie.value, now);
    dispatched := session != null;
  }

  // HandleLogout, which the session check guards.
  method HandleLogout(store: Sessions.SessionStore, cookie: Option<string>)
    requires store.Valid()
    modifies store
    ensures store.Valid()
    ensures store.View() == if cookie.Some? && cookie.value != "" then old(store.View()) - {cookie.value}
                            else old(store.View())
  {
    if cookie.Some? && cookie.value != "" {
      store.Delete(cookie.value);
    }
  }

  // ---- Requests as interleaved steps ----

  datatype Settings = Settings(secret: string, limit: int, window: int, ttl: int)

  // How far a request has got.
  datatype Phase =
    | Admitted(ip: string, at: int)
    | Proven(ip: string)
    | Dispatched(token: string)
    | Over

  datatype Step =
    | Allow(req: nat, ip: string, at: int)
    | Malformed(req: nat, at: int)
    | Compare(req: nat, ip: string, admitted: int, input: string, at: int)
    | Issue(req: nat, token: string, stamp: int, at: int)
    | Enter(req: nat, token: string, at: int)
    | Logout(req: nat, token: string, at: int)
    | Sweep(stamp: int, at: int)

  datatype State = State(windows: RateLimiting.Windows, store: Sessions.Store, phases: map<nat, Phase>)

  // What the handlers let happen next.
  predicate Enabled(s: State, step: Step) {
    match step
    case Allow(req, _, _) => req !in s.phases
    case Malformed(req, _) => req in s.phases && s.phases[req].Admitted?
    case Compare(req, ip, admitted, _, _) => req in s.phases && s.phases[req] == Admitted(ip, admitted)
    case Issue(req, _, _, _) => req in s.phases && s.phases[req].Proven?
    case Enter(req, _, _) => req !in s.phases
    case Logout(req, token, _) => req in s.phases && s.phases[req] == Dispatched(token) && token != ""
    case Sweep(_, _) => true
  }

  predicate Admits(w: RateLimiting.Windows, ip: string, at: int, c: Settings) {
    RateLimiting.Decide(w, ip, at, c.limit, c.window).1
  }

  function NextWindows(w: RateLimiting.Windows, step: Step, c: Settings): RateLimiting.Windows {
    if step.Allow? then RateLimiting.Decide(w, step.ip, step.at, c.limit, c.window).0 else w
  }

  function NextStore(m: Sessions.Store, step: Step, c: Settings): Sessions.Store {
    match step
    case Issue(_, token, stamp, _) => Sessions.Created(m, token, stamp, c.ttl)
    case Enter(_, token, at) => Sessions.Got(m, token, at)
    case Logout(_, token, _) => m - {token}
    case Sweep(stamp, _) => m - Sessions.Expired(m, stamp)
    case _ => m
  }

  // What becomes of the request that takes the step.
  function NextPhase(s: State, step: Step, c: Settings): Phase
    requires !step.Sweep?
  {
    match step
    case Allow(_, ip, at) => if Admits(s.windows, ip, at, c) then Admitted(ip, at) else Over
    case Compare(_, ip, _, input, _) => if input == c.secret then Proven(ip) else Over
    case Enter(_, token, at) => if Sessions.Answers(s.store, token, at) then Dispatched(token) else Over
    case _ => Over
  }

  function Next(s: State, step: Step, c: Settings): State {
    State(NextWindows(s.windows, step, c), NextStore(s.store, step, c),
          if step.Sweep? then s.phases else s.phases[step.req := NextPhase(s, step, c)])
  }

  function After(run: seq<Step>, c: Settings): State {
    if run == [] then State(map[], map[], map[]) else Next(After(run[..|run| - 1], c), run[|run| - 1], c)
  }

  // A run: each step is one the handlers allow, and the clock does not go back.
  predicate Legal(run: seq<Step>, c: Settings) {
    run == [] ||
    var n := |run| - 1;
    && Legal(run[..n], c) && Enabled(After(run[..n], c), run[n])
    && (n > 0 ==> run[n - 1].at <= run[n].at)
    && (run[n].Issue? || run[n].Sweep? ==> run[n].stamp <= run[n].at)
  }

  lemma {:induction false} LegalPrefix(run: seq<Step>, c: Settings, n: nat)
    requires Legal(run, c) && n <= |run|
    ensures Legal(run[..n], c)
  {
    if n < |run| {
      LegalPrefix(run[..|run| - 1], c, n);
      assert run[..|run| - 1][..n] == run[..n];
    } else {
      assert run[..n] == run;
    }
  }

  // Each step finds the state of the steps before it.
  lemma LegalStep(run: seq<Step>, c: Settings, n: nat)
    requires Legal(run, c) && n < |run|
    ensures Legal(run[..n], c) && Enabled(After(run[..n], c), run[n])
    ensures n > 0 ==> run[n - 1].at <= run[n].at
  {
    LegalPrefix(run, c, n + 1);
    assert run[..n + 1][..n] == run[..n];
  }

  lemma {:induction false} ClockAdvances(run: seq<Step>, c: Settings, i: nat)
    requires Legal(run, c) && i < |run|
    ensures run[i].at <= run[|run| - 1].at
  {
    if i < |run| - 1 {
      ClockAdvances(run[..|run| - 1], c, i);
    }
  }

  // ---- Nothing is served without a login ----

  // The calls a run makes on the session store.
  function StoreCalls(run: seq<Step>): seq<Sessions.Call> {
    if run == [] then [] else StoreCalls(run[..|run| - 1]) + StoreCall(run[|run| - 1])
  }

  function StoreCall(step: Step): seq<Sessions.Call> {
    match step
    case Issue(_, token, stamp, at) => [Sessions.Create(token, stamp, at)]
    case Enter(_, token, at) => [Sessions.Get(token, at)]
    case Logout(_, token, at) => [Sessions.Delete(token, at)]
    case Sweep(stamp, at) => [Sessions.Cleanup(stamp, at)]
    case _ => []
  }

  lemma StoreStep(front: seq<Sessions.Call>, step: Step, c: Settings)
    ensures Sessions.After(front + StoreCall(step), c.ttl) == NextStore(Sessions.After(front, c.ttl), step, c)
  {
    if StoreCall(step) == [] {
      assert front + StoreCall(step) == front;
    } else {
      assert (front + StoreCall(step))[..|front|] == front;
    }
  }

  function NextLedger(ledger: map<string, int>, step: Step): map<string, int> {
    if step.Issue? then ledger[step.token := step.stamp]
    else if step.Logout? then ledger - {step.token}
    else ledger
  }

  lemma LedgerStep(front: seq<Sessions.Call>, step: Step)
    ensures Sessions.Ledger(front + StoreCall(step)) == NextLedger(Sessions.Ledger(front), step)
  {
    if StoreCall(step) == [] {
      assert front + StoreCall(step) == front;
    } else {
      assert (front + StoreCall(step))[..|front|] == front;
    }
  }

  // run[i] issued the token, and nothing has issued it again or logged it out since.
  predicate IssuedAt(run: seq<Step>, token: string, i: nat) {
    && i < |run| && run[i].Issue? && run[i].token == token
    && (forall j :: i < j < |run| ==> !(run[j].Issue? && run[j].token == token))
    && (forall j :: i < j < |run| ==> !(run[j].Logout? && run[j].token == token))
  }

  // The request was let past the limiter at step a.
  predicate AdmittedAt(run: seq<Step>, c: Settings, a: nat, req: nat, ip: string, at: int) {
    && a < |run| && run[a] == Allow(req, ip, at)
    && Admits(After(run[..a], c).windows, ip, at, c)
  }

  // The request gave the right secret at step b, having been let past the limiter.
  ghost predicate ProvenAt(run: seq<Step>, c: Settings, b: nat, req: nat, ip: string) {
    && b < |run| && run[b].Compare? && run[b].req == req && run[b].ip == ip && run[b].input == c.secret
    && exists a :: 0 <= a < b && AdmittedAt(run, c, a, req, ip, run[b].admitted)
  }

  ghost predicate EnteredAt(run: seq<Step>, c: Settings, e: nat, req: nat, token: string) {
    && e < |run| && run[e].Enter? && run[e].req == req && run[e].token == token
    && Sessions.Answers(After(run[..e], c).store, token, run[e].at)
  }

  // Every phase a request is in was earned.
  ghost predicate Earned(run: seq<Step>, c: Settings, req: nat, phase: Phase) {
    match phase
    case Admitted(ip, at) => exists a: nat :: AdmittedAt(run, c, a, req, ip, at)
    case Proven(ip) => exists b: nat :: ProvenAt(run, c, b, req, ip)
    case Dispatched(token) => exists e: nat :: EnteredAt(run, c, e, req, token)
    case Over => true
  }

  lemma EarnedExtends(run: seq<Step>, more: seq<Step>, c: Settings, req: nat, phase: Phase)
    requires run <= more && Earned(run, c, req, phase)
    ensures Earned(more, c, req, phase)
  {
    forall i | 0 <= i <= |run|
      ensures more[..i] == run[..i]
    {
    }
    match phase
    case Admitted(ip, at) =>
      var a: nat :| AdmittedAt(run, c, a, req, ip, at);
      assert AdmittedAt(more, c, a, req, ip, at);
    case Proven(ip) =>
      var b: nat :| ProvenAt(run, c, b, req, ip);
      var a :| 0 <= a < b && AdmittedAt(run, c, a, req, ip, run[b].admitted);
      assert AdmittedAt(more, c, a, req, ip, more[b].admitted);
      assert ProvenAt(more, c, b, req, ip);
    case Dispatched(token) =>
      var e: nat :| EnteredAt(run, c, e, req, token);
      assert EnteredAt(more, c, e, req, token);
    case Over =>
  }

  lemma {:induction false} PhasesAreEarned(run: seq<Step>, c: Settings, req: nat)
    requires Legal(run, c)
    requires req in After(run, c).phases
    ensures Earned(run, c, req, After(run, c).phases[req])
  {
    if run != [] {
      var n := |run| - 1;
      var s := After(run[..n], c);
      if req in s.phases {
        PhasesAreEarned(run[..n], c, req);
        EarnedExtends(run[..n], run, c, req, s.phases[req]);
      }
      StepEarns(run, c, req);
    }
  }

  lemma StepEarns(run: seq<Step>, c: Settings, req: nat)
    requires run != [] && Enabled(After(run[..|run| - 1], c), run[|run| - 1])
    requires req in After(run, c).phases
    requires var s := After(run[..|run| - 1], c);
             req in s.phases ==> Earned(run, c, req, s.phases[req])
    ensures Earned(run, c, req, After(run, c).phases[req])
  {
    var n := |run| - 1;
    var s := After(run[..n], c);
    match run[n]
    case Allow(r, ip, at) =>
      if r == req && After(run, c).phases[req].Admitted? {
        assert AdmittedAt(run, c, n, req, ip, at);
      }
    case Compare(r, ip, admitted, input, at) =>
      if r == req && input == c.secret {
        var a: nat :| AdmittedAt(run, c, a, req, ip, admitted);
        assert a != n;
        assert ProvenAt(run, c, n, req, ip);
      }
    case Enter(r, token, at) =>
      if r == req && After(run, c).phases[req].Dispatched? {
        assert EnteredAt(run, c, n, req, token);
      }
    case _ =>
  }

  // A session is issued only to a request that gave the right secret after the
  // limiter let it past.
  lemma {:induction false} IssueNeedsSecret(run: seq<Step>, c: Settings, i: nat)
    requires Legal(run, c) && i < |run| && run[i].Issue?
    ensures exists b: nat, ip :: ProvenAt(run[..i], c, b, run[i].req, ip)
  {
    LegalStep(run, c, i);
    PhasesAreEarned(run[..i], c, run[i].req);
  }

  // Only a request that was let in with a session can log that session out.
  lemma {:induction false} LogoutNeedsSession(run: seq<Step>, c: Settings, i: nat)
    requires Legal(run, c) && i < |run| && run[i].Logout?
    ensures exists e: nat :: EnteredAt(run[..i], c, e, run[i].req, run[i].token)
  {
    LegalStep(run, c, i);
    PhasesAreEarned(run[..i], c, run[i].req);
  }

  lemma {:induction false} StoreIsReplayed(run: seq<Step>, c: Settings)
    ensures After(run, c).store == Sessions.After(StoreCalls(run), c.ttl)
  {
    if run != [] {
      var n := |run| - 1;
      StoreIsReplayed(run[..n], c);
      StoreStep(StoreCalls(run[..n]), run[n], c);
    }
  }

  lemma {:induction false} StoreCallsInOrder(run: seq<Step>, c: Settings)
    requires Legal(run, c)
    ensures Sessions.InOrder(StoreCalls(run))
    ensures forall i :: 0 <= i < |StoreCalls(run)| ==> StoreCalls(run)[i].at <= run[|run| - 1].at
  {
    if run != [] {
      var n := |run| - 1;
      StoreCallsInOrder(run[..n], c);
      InOrderExtends(StoreCalls(run[..n]), run[n]);
    }
  }

  lemma InOrderExtends(front: seq<Sessions.Call>, step: Step)
    requires Sessions.InOrder(front) && (step.Issue? || step.Sweep? ==> step.stamp <= step.at)
    requires forall i :: 0 <= i < |front| ==> front[i].at <= step.at
    ensures Sessions.InOrder(front + StoreCall(step))
    ensures forall i :: 0 <= i < |front + StoreCall(step)| ==> (front + StoreCall(step))[i].at <= step.at
  {
  }

  // The step that issued the token, unless it has been logged out since.
  function LastIssue(run: seq<Step>, token: string): (r: Option<nat>)
    ensures r.Some? ==> r.value < |run| && run[r.value].Issue?
  {
    if run == [] then None
    else
      var n := |run| - 1;
      if run[n].Issue? && run[n].token == token then Some(n)
      else if run[n].Logout? && run[n].token == token then None
      else LastIssue(run[..n], token)
  }

  lemma {:induction false} LastIssueMeans(run: seq<Step>, token: string, i: nat)
    ensures IssuedAt(run, token, i) <==> LastIssue(run, token) == Some(i)
  {
    if run != [] {
      var n := |run| - 1;
      if i < n {
        LastIssueMeans(run[..n], token, i);
        assert IssuedAt(run, token, i) <==> IssuedAt(run[..n], token, i)
                                            && !((run[n].Issue? || run[n].Logout?) && run[n].token == token);
      }
    }
  }

  // The ledger of the store's calls, kept along the run.
  function Ledger(run: seq<Step>): map<string, int> {
    if run == [] then map[] else NextLedger(Ledger(run[..|run| - 1]), run[|run| - 1])
  }

  lemma {:induction false} LedgerIsReplayed(run: seq<Step>)
    ensures Sessions.Ledger(StoreCalls(run)) == Ledger(run)
  {
    if run != [] {
      var n := |run| - 1;
      LedgerIsReplayed(run[..n]);
      LedgerStep(StoreCalls(run[..n]), run[n]);
    }
  }

  lemma {:induction false} LedgerOfRun(run: seq<Step>, token: string)
    ensures token in Ledger(run) <==> LastIssue(run, token).Some?
    ensures token in Ledger(run) ==> Ledger(run)[token] == run[LastIssue(run, token).value].stamp
  {
    if run != [] {
      LedgerOfRun(run[..|run| - 1], token);
    }
  }

  // A request gets past the session check exactly when its token was issued at
  // most ttl ago and not logged out since.
  lemma {:induction false} ServedOnlyAfterLogin(run: seq<Step>, c: Settings, j: nat)
    requires Legal(run, c) && j < |run| && run[j].Enter?
    ensures EnteredAt(run, c, j, run[j].req, run[j].token) <==>
              exists i: nat :: IssuedAt(run[..j], run[j].token, i) && run[j].at <= run[i].stamp + c.ttl
  {
    var token := run[j].token;
    var calls := StoreCalls(run[..j]);
    LegalStep(run, c, j);
    StoreIsReplayed(run[..j], c);
    StoreCallsInOrder(run[..j], c);
    Sessions.CleanupIsUnobservable(calls, c.ttl, token, run[j].at);
    LedgerIsReplayed(run[..j]);
    LedgerOfRun(run[..j], token);
    forall i: nat
      ensures IssuedAt(run[..j], token, i) <==> LastIssue(run[..j], token) == Some(i)
    {
      LastIssueMeans(run[..j], token, i);
    }
  }

  // Getting past it is being served: the request is dispatched with its token.
  lemma EnteredIsServed(run: seq<Step>, c: Settings, j: nat)
    requires j < |run| && run[j].Enter?
    ensures var phases := After(run[..j + 1], c).phases;
            && run[j].req in phases
            && (phases[run[j].req] == Dispatched(run[j].token) <==> EnteredAt(run, c, j, run[j].req, run[j].token))
  {
    assert run[..j + 1][..j] == run[..j];
  }

  // Every request that gets past the session check goes back to a login that
  // passed the limiter and then gave the right secret.
  lemma {:induction false} ServedTracesBackToSecret(run: seq<Step>, c: Settings, j: nat)
    returns (i: nat, b: nat, ip: string)
    requires Legal(run, c) && j < |run| && run[j].Enter? && EnteredAt(run, c, j, run[j].req, run[j].token)
    ensures IssuedAt(run[..j], run[j].token, i) && run[j].at <= run[i].stamp + c.ttl
    ensures ProvenAt(run[..i], c, b, run[i].req, ip)
  {
    ServedOnlyAfterLogin(run, c, j);
    i :| IssuedAt(run[..j], run[j].token, i) && run[j].at <= run[i].stamp + c.ttl;
    IssueNeedsSecret(run, c, i);
    b, ip :| ProvenAt(run[..i], c, b, run[i].req, ip);
  }

  // ---- A login that is served ----

  lemma LegalExtends(run: seq<Step>, c: Settings, step: Step)
    requires Legal(run, c) && Enabled(After(run, c), step)
    requires run != [] ==> run[|run| - 1].at <= step.at
    requires step.Issue? || step.Sweep? ==> step.stamp <= step.at
    ensures Legal(run + [step], c) && After(run + [step], c) == Next(After(run, c), step, c)
  {
    assert (run + [step])[..|run|] == run;
  }

  // ---- No more guesses than the limit ----

  function LimiterCalls(run: seq<Step>): seq<RateLimiting.Call> {
    if run == [] then []
    else
      LimiterCalls(run[..|run| - 1]) +
      match run[|run| - 1]
      case Allow(_, ip, at) => [RateLimiting.Call(ip, at)]
      case _ => []
  }

  // How many secrets were compared for requests admitted in (from, to].
  function Guesses(run: seq<Step>, ip: string, from: int, to: int): nat {
    if run == [] then 0
    else
      var n := |run| - 1;
      Guesses(run[..n], ip, from, to)
      + if run[n].Compare? && run[n].ip == ip && from < run[n].admitted <= to then 1 else 0
  }

  predicate Waits(phase: Phase, ip: string, from: int, to: int) {
    phase.Admitted? && phase.ip == ip && from < phase.at <= to
  }

  // The admitted requests that have not come to their comparison.
  function Waiting(phases: map<nat, Phase>, ip: string, from: int, to: int): set<nat> {
    set req | req in phases && Waits(phases[req], ip, from, to)
  }

  lemma {:induction false} LimiterCallsInOrder(run: seq<Step>, c: Settings)
    requires Legal(run, c)
    ensures RateLimiting.Monotone(LimiterCalls(run))
    ensures forall call :: call in LimiterCalls(run) ==> call.at <= run[|run| - 1].at
  {
    if run != [] {
      var n := |run| - 1;
      LimiterCallsInOrder(run[..n], c);
      var front := LimiterCalls(run[..n]);
      forall i | 0 <= i < |front|
        ensures front[i].at <= run[n].at
      {
        assert front[i] in front;
      }
    }
  }

  lemma {:induction false} WindowsAreReplayed(run: seq<Step>, c: Settings)
    ensures After(run, c).windows == RateLimiting.Replay(LimiterCalls(run), c.limit, c.window).0
  {
    if run != [] {
      var n := |run| - 1;
      WindowsAreReplayed(run[..n], c);
      var front := LimiterCalls(run[..n]);
      if run[n].Allow? {
        RateLimiting.ReplayOneMore(front, RateLimiting.Call(run[n].ip, run[n].at), c.limit, c.window);
      } else {
        assert LimiterCalls(run) == front;
      }
    }
  }

  function Grants(run: seq<Step>, c: Settings, ip: string, from: int, to: int): nat {
    var calls := LimiterCalls(run);
    RateLimiting.Granted(calls, RateLimiting.Replay(calls, c.limit, c.window).1, ip, from, to)
  }

  // Every comparison and every waiting request has its own grant.
  lemma {:induction false} GuessesAreGranted(run: seq<Step>, c: Settings, ip: string, from: int, to: int)
    requires Legal(run, c)
    ensures Guesses(run, ip, from, to) + |Waiting(After(run, c).phases, ip, from, to)| <= Grants(run, c, ip, from, to)
  {
    if run == [] {
      assert Waiting(map[], ip, from, to) == {};
    } else {
      var n := |run| - 1;
      GuessesAreGranted(run[..n], c, ip, from, to);
      StepWaits(After(run[..n], c), run[n], c, ip, from, to);
      StepGrants(run, c, ip, from, to);
    }
  }

  // Whether a step admits, or compares for, a request of this IP and interval.
  predicate Matches(step: Step, ip: string, from: int, to: int) {
    match step
    case Allow(_, other, at) => other == ip && from < at <= to
    case Compare(_, other, admitted, _, _) => other == ip && from < admitted <= to
    case _ => false
  }

  lemma WaitingUpdate(phases: map<nat, Phase>, req: nat, phase: Phase, ip: string, from: int, to: int)
    ensures |Waiting(phases[req := phase], ip, from, to)|
            == |Waiting(phases, ip, from, to)|
               - (if req in phases && Waits(phases[req], ip, from, to) then 1 else 0)
               + (if Waits(phase, ip, from, to) then 1 else 0)
  {
    var before := Waiting(phases, ip, from, to);
    var after := Waiting(phases[req := phase], ip, from, to);
    var others := before - {req};
    assert before == if req in before then others + {req} else others;
    assert after == if req in after then others + {req} else others;
  }

  lemma StepWaits(s: State, step: Step, c: Settings, ip: string, from: int, to: int)
    requires Enabled(s, step)
    ensures var before := |Waiting(s.phases, ip, from, to)|;
            var after := |Waiting(Next(s, step, c).phases, ip, from, to)|;
            after <= before
                     + (if step.Allow? && Matches(step, ip, from, to)
                           && Admits(s.windows, step.ip, step.at, c) then 1 else 0)
                     - (if step.Compare? && Matches(step, ip, from, to) then 1 else 0)
  {
    if !step.Sweep? {
      WaitingUpdate(s.phases, step.req, NextPhase(s, step, c), ip, from, to);
    }
  }

  lemma StepGrants(run: seq<Step>, c: Settings, ip: string, from: int, to: int)
    requires run != []
    ensures var n := |run| - 1;
            var s := After(run[..n], c);
            Grants(run, c, ip, from, to) == Grants(run[..n], c, ip, from, to)
              + if run[n].Allow? && Matches(run[n], ip, from, to) && Admits(s.windows, run[n].ip, run[n].at, c) then 1 else 0
  {
    var n := |run| - 1;
    var front := LimiterCalls(run[..n]);
    WindowsAreReplayed(run[..n], c);
    if run[n].Allow? {
      RateLimiting.GrantedOneMore(front, RateLimiting.Call(run[n].ip, run[n].at), c.limit, c.window, ip, from, to);
    } else {
      assert LimiterCalls(run) == front;
    }
  }

  // Of the requests of one IP admitted in any interval (a, a+window], at most
  // `limit` ever get to compare a secret.
  lemma {:induction false} GuessesAreLimited(run: seq<Step>, c: Settings, ip: string, a: int)
    requires Legal(run, c) && c.limit >= 0
    ensures Guesses(run, ip, a, a + c.window) <= c.limit
  {
    LimiterCallsInOrder(run, c);
    RateLimiting.NeverOverLimit(LimiterCalls(run), c.limit, c.window, ip, a);
    GuessesAreGranted(run, c, ip, a, a + c.window);
  }

  // ---- Guesses counted when they are made ----

  // How many secrets were compared in (from, to].
  function GuessesMade(run: seq<Step>, ip: string, from: int, to: int): nat {
    if run == [] then 0
    else
      var n := |run| - 1;
      GuessesMade(run[..n], ip, from, to)
      + if run[n].Compare? && run[n].ip == ip && from < run[n].at <= to then 1 else 0
  }

  // No request takes longer than d from its admission to its comparison.
  predicate Prompt(run: seq<Step>, d: int) {
    forall n :: 0 <= n < |run| && run[n].Compare? ==> run[n].at - run[n].admitted <= d
  }

  lemma {:induction false} MadeOnceAdmitted(run: seq<Step>, c: Settings, ip: string, from: int, to: int, d: int)
    requires Legal(run, c) && Prompt(run, d)
    ensures GuessesMade(run, ip, from, to) <= Guesses(run, ip, from - d, to)
  {
    if run != [] {
      var n := |run| - 1;
      MadeOnceAdmitted(run[..n], c, ip, from, to, d);
      if run[n].Compare? {
        PhasesAreEarned(run[..n], c, run[n].req);
        var a: nat :| AdmittedAt(run[..n], c, a, run[n].req, run[n].ip, run[n].admitted);
        ClockAdvances(run, c, a);
      }
    }
  }

  // Counted when they are made, the comparisons keep to the limit in any window
  // shortened by the longest delay.
  lemma {:induction false} PromptGuessesAreLimited(run: seq<Step>, c: Settings, ip: string, a: int, d: int)
    requires Legal(run, c) && Prompt(run, d) && c.limit >= 0
    ensures GuessesMade(run, ip, a, a + c.window - d) <= c.limit
  {
    MadeOnceAdmitted(run, c, ip, a, a + c.window - d, d);
    GuessesAreLimited(run, c, ip, a - d);
  }

  // `k` requests of one IP admitted at time 0, of which `m` compare at time d.
  function Crowd(ip: string, d: int, k: nat, m: nat): seq<Step> {
    if m > 0 then Crowd(ip, d, k, m - 1) + [Compare(m - 1, ip, 0, "", d)]
    else if k > 0 then Crowd(ip, d, k - 1, 0) + [Allow(k - 1, ip, 0)]
    else []
  }

  lemma {:induction false} PruneKeepsAll(ts: seq<int>, cutoff: int)
    requires forall i :: 0 <= i < |ts| ==> ts[i] > cutoff
    ensures RateLimiting.Prune(ts, cutoff) == ts
  {
    if ts != [] {
      PruneKeepsAll(ts[..|ts| - 1], cutoff);
    }
  }

  lemma {:induction false} PruneDropsAll(ts: seq<int>, cutoff: int)
    requires forall i :: 0 <= i < |ts| ==> ts[i] <= cutoff
    ensures RateLimiting.Prune(ts, cutoff) == []
  {
    if ts != [] {
      PruneDropsAll(ts[..|ts| - 1], cutoff);
    }
  }

  // `k` requests admitted at time 0, of which the first `m` have compared.
  ghost predicate Crowded(run: seq<Step>, c: Settings, ip: string, d: int, k: nat, m: nat) {
    && Legal(run, c) && Prompt(run, d)
    && (run != [] ==> run[|run| - 1].at == if m > 0 then d else 0)
    && CrowdedState(After(run, c), ip, k, m)
    && GuessesMade(run, ip, 0, c.window) == m
  }

  ghost predicate CrowdedState(s: State, ip: string, k: nat, m: nat) {
    && |RateLimiting.Kept(s.windows, ip)| == k
    && (forall i :: 0 <= i < k ==> RateLimiting.Kept(s.windows, ip)[i] == 0)
    && (forall r :: r in s.phases <==> 0 <= r < k)
    && (forall r :: m <= r < k ==> s.phases[r] == Admitted(ip, 0))
  }

  lemma CrowdArrives(run: seq<Step>, c: Settings, ip: string, d: int, k: nat)
    requires Crowded(run, c, ip, d, k, 0) && k < c.limit && 0 < c.window
    ensures Crowded(run + [Allow(k, ip, 0)], c, ip, d, k + 1, 0)
  {
    CrowdGrows(After(run, c), c, ip, k);
    LegalExtends(run, c, Allow(k, ip, 0));
    assert (run + [Allow(k, ip, 0)])[..|run|] == run;
  }

  lemma CrowdGrows(s: State, c: Settings, ip: string, k: nat)
    requires CrowdedState(s, ip, k, 0) && k < c.limit && 0 < c.window
    ensures CrowdedState(Next(s, Allow(k, ip, 0), c), ip, k + 1, 0)
  {
    PruneKeepsAll(RateLimiting.Kept(s.windows, ip), -c.window);
    assert Next(s, Allow(k, ip, 0), c).windows == s.windows[ip := RateLimiting.Kept(s.windows, ip) + [0]];
  }

  lemma CrowdGuesses(run: seq<Step>, c: Settings, ip: string, d: int, k: nat, m: nat)
    requires Crowded(run, c, ip, d, k, m) && m < k && 1 <= d <= c.window
    ensures Crowded(run + [Compare(m, ip, 0, "", d)], c, ip, d, k, m + 1)
  {
    LegalExtends(run, c, Compare(m, ip, 0, "", d));
    assert (run + [Compare(m, ip, 0, "", d)])[..|run|] == run;
  }

  lemma {:induction false} CrowdIsLegal(c: Settings, ip: string, d: int, k: nat, m: nat)
    requires 1 <= d <= c.window && m <= k <= c.limit
    ensures Crowded(Crowd(ip, d, k, m), c, ip, d, k, m)
    decreases m, k
  {
    if m > 0 {
      CrowdIsLegal(c, ip, d, k, m - 1);
      CrowdGuesses(Crowd(ip, d, k, m - 1), c, ip, d, k, m - 1);
    } else if k > 0 {
      CrowdIsLegal(c, ip, d, k - 1, 0);
      CrowdArrives(Crowd(ip, d, k - 1, 0), c, ip, d, k - 1);
    }
  }

  // A crowd that was slow to compare, and one more request a window later.
  lemma {:induction false} DelayedGuessesExceed(c: Settings, d: int) returns (run: seq<Step>)
    requires 1 <= c.limit && 1 <= c.window && 1 <= d
    ensures Legal(run, c) && Prompt(run, d)
    ensures GuessesMade(run, "", 0, c.window) == c.limit + 1
  {
    var delay := if d <= c.window then d else c.window;
    var crowd := Crowd("", delay, c.limit, c.limit);
    CrowdIsLegal(c, "", delay, c.limit, c.limit);
    PruneDropsAll(RateLimiting.Kept(After(crowd, c).windows, ""), 0);
    run := OneMore(crowd, c, "", c.limit, delay);
  }

  // A request that is admitted at the end of the window and compares at once.
  lemma OneMore(run: seq<Step>, c: Settings, ip: string, req: nat, d: int) returns (more: seq<Step>)
    requires Legal(run, c) && Prompt(run, d) && 0 <= d && 0 < c.window
    requires req !in After(run, c).phases && (run != [] ==> run[|run| - 1].at <= c.window)
    requires Admits(After(run, c).windows, ip, c.window, c)
    ensures Legal(more, c) && Prompt(more, d)
    ensures GuessesMade(more, ip, 0, c.window) == GuessesMade(run, ip, 0, c.window) + 1
  {
    LegalExtends(run, c, Allow(req, ip, c.window));
    var late := run + [Allow(req, ip, c.window)];
    LegalExtends(late, c, Compare(req, ip, c.window, "", c.window));
    more := late + [Compare(req, ip, c.window, "", c.window)];
    assert more[..|late|] == late && late[..|run|] == run;
  }

  ghost predicate AlwaysLimited(c: Settings, d: int) {
    forall run, ip, from, to :: Legal(run, c) && Prompt(run, d) && to == from + c.window ==>
      GuessesMade(run, ip, from, to) <= c.limit
  }

  // The limiter bounds the comparisons themselves, and not only the admissions,
  // exactly when no request can linger between the two.
  lemma {:induction false} LimitedExactlyWhenPrompt(c: Settings, d: int)
    requires 1 <= c.limit && 1 <= c.window && 0 <= d
    ensures AlwaysLimited(c, d) <==> d == 0
  {
    if d == 0 {
      forall run, ip, from, to | Legal(run, c) && Prompt(run, d) && to == from + c.window
        ensures GuessesMade(run, ip, from, to) <= c.limit
      {
        PromptGuessesAreLimited(run, c, ip, from, d);
      }
    } else {
      var run := DelayedGuessesExceed(c, d);
      assert GuessesMade(run, "", 0, c.window) > c.limit;
    }
  }

  // ---- A good login is served ----

  lemma LastCallEarlier(run: seq<Step>, c: Settings, at: int)
    requires Legal(run, c) && (run != [] ==> run[|run| - 1].at <= at)
    ensures var calls := LimiterCalls(run);
            RateLimiting.Monotone(calls) && (calls != [] ==> calls[|calls| - 1].at <= at)
  {
    LimiterCallsInOrder(run, c);
    var calls := LimiterCalls(run);
    if calls != [] {
      assert calls[|calls| - 1] in calls;
    }
  }

  // Whether the limiter lets a request past, by the calls it let past before.
  lemma {:induction false} AdmitsByHistory(run: seq<Step>, c: Settings, ip: string, at: int)
    requires Legal(run, c) && (run != [] ==> run[|run| - 1].at <= at)
    ensures Admits(After(run, c).windows, ip, at, c) <==> Grants(run, c, ip, at - c.window, at) < c.limit
  {
    LastCallEarlier(run, c, at);
    AdmitsByCalls(run, c, ip, at);
  }

  lemma AdmitsByCalls(run: seq<Step>, c: Settings, ip: string, at: int)
    requires RateLimiting.Monotone(LimiterCalls(run))
    requires var calls := LimiterCalls(run); calls != [] ==> calls[|calls| - 1].at <= at
    ensures Admits(After(run, c).windows, ip, at, c) <==> Grants(run, c, ip, at - c.window, at) < c.limit
  {
    WindowsAreReplayed(run, c);
    RateLimiting.HistoryDecides(LimiterCalls(run), c.limit, c.window, ip, at);
  }

  // The run goes on with a step that puts its request in the phase.
  lemma Takes(run: seq<Step>, c: Settings, step: Step, phase: Phase) returns (more: seq<Step>)
    requires Legal(run, c) && Enabled(After(run, c), step) && (run != [] ==> run[|run| - 1].at <= step.at)
    requires !step.Sweep? && (step.Issue? ==> step.stamp <= step.at) && NextPhase(After(run, c), step, c) == phase
    ensures more == run + [step] && Legal(more, c)
    ensures After(more, c).phases == After(run, c).phases[step.req := phase]
    ensures After(more, c).store == NextStore(After(run, c).store, step, c)
  {
    more := run + [step];
    LegalExtends(run, c, step);
  }

  lemma Proves(run: seq<Step>, c: Settings, ip: string, req: nat, at: int) returns (more: seq<Step>)
    requires Legal(run, c) && (run != [] ==> run[|run| - 1].at <= at) && req !in After(run, c).phases
    requires Admits(After(run, c).windows, ip, at, c)
    ensures more == run + [Allow(req, ip, at), Compare(req, ip, at, c.secret, at)]
    ensures Legal(more, c) && After(more, c).phases == After(run, c).phases[req := Proven(ip)]
  {
    more := Takes(run, c, Allow(req, ip, at), Admitted(ip, at));
    more := Takes(more, c, Compare(req, ip, at, c.secret, at), Proven(ip));
  }

  lemma Issues(run: seq<Step>, c: Settings, ip: string, token: string, req: nat, stamp: int, issued: int)
    returns (more: seq<Step>)
    requires Legal(run, c) && (run != [] ==> run[|run| - 1].at <= issued) && stamp <= issued
    requires req in After(run, c).phases && After(run, c).phases[req] == Proven(ip)
    ensures more == run + [Issue(req, token, stamp, issued)]
    ensures Legal(more, c) && After(more, c).phases == After(run, c).phases[req := Over]
    ensures forall later :: later <= stamp + c.ttl ==> Sessions.Answers(After(more, c).store, token, later)
  {
    more := Takes(run, c, Issue(req, token, stamp, issued), Over);
  }

  // After any run, a request with the right secret, from an IP with fewer than
  // `limit` admissions in the last window, can log in; within ttl its token is
  // let in, and whoever is let in with it can log it out.
  lemma {:induction false} LoginIsServed(run: seq<Step>, c: Settings, ip: string, token: string,
                                         req: nat, other: nat, at: int, stamp: int, issued: int, later: int)
    requires Legal(run, c) && (run != [] ==> run[|run| - 1].at <= at)
    requires at <= issued <= later && stamp <= issued && later <= stamp + c.ttl && token != ""
    requires req !in After(run, c).phases && other !in After(run, c).phases && req != other
    requires Grants(run, c, ip, at - c.window, at) < c.limit
    ensures var login := [Allow(req, ip, at), Compare(req, ip, at, c.secret, at), Issue(req, token, stamp, issued)];
            var served := run + login + [Enter(other, token, later)];
            && Legal(served, c) && other in After(served, c).phases
            && After(served, c).phases[other] == Dispatched(token)
            && Legal(served + [Logout(other, token, later)], c)
  {
    AdmitsByHistory(run, c, ip, at);
    var more := Proves(run, c, ip, req, at);
    more := Issues(more, c, ip, token, req, stamp, issued);
    assert more == run + [Allow(req, ip, at), Compare(req, ip, at, c.secret, at), Issue(req, token, stamp, issued)];
    more := Takes(more, c, Enter(other, token, later), Dispatched(token));
    more := Takes(more, c, Logout(other, token, later), Over);
  }
}
