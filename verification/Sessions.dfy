// The in-memory session store, and why its cleanup cannot be noticed.
module Sessions {
  // What a stored session shows.
  datatype Record = Record(created: int, expires: int, lastAccessed: int)

  type Store = map<string, Record>

  predicate Live(r: Record, now: int) {
    now <= r.expires
  }

  // ---- The store's operations on what it shows ----

  // Create with a token; `stamp` is the clock as read before the lock is taken.
  function Created(m: Store, token: string, stamp: int, ttl: int): Store {
    m[token := Record(stamp, stamp + ttl, stamp)]
  }

  // Get: an expired session is deleted, a live one is touched.
  function Got(m: Store, token: string, now: int): Store {
    if token !in m then m
    else if Live(m[token], now) then m[token := m[token].(lastAccessed := now)]
    else m - {token}
  }

  predicate Answers(m: Store, token: string, now: int) {
    token in m && Live(m[token], now)
  }

  function Expired(m: Store, now: int): set<string> {
    set token | token in m && !Live(m[token], now)
  }

  // ---- The store itself ----

  class Session {
    const Token: string
    const CreatedAt: int
    const ExpiresAt: int
    var LastAccessed: int

    constructor (token: string, now: int, ttl: int)
      ensures Token == token && CreatedAt == now && ExpiresAt == now + ttl && LastAccessed == now
    {
      Token := token;
      CreatedAt := now;
      ExpiresAt := now + ttl;
      LastAccessed := now;
    }

    function View(): Record
      reads this
    {
      Record(CreatedAt, ExpiresAt, LastAccessed)
    }
  }

  class SessionStore {
    var sessions: map<string, Session>
    const ttl: int

    // Sessions are stored under their tokens, so no two tokens share one.
    ghost predicate Valid()
      reads this, sessions.Values
    {
      && (forall t :: t in sessions ==> sessions[t].Token == t)
    }

    ghost function View(): Store
      reads this, sessions.Values
    {
      map t | t in sessions :: sessions[t].View()
    }

    constructor (ttl: int)
      ensures Valid() && View() == map[] && this.ttl == ttl && sessions == map[]
    {
      sessions := map[];
      this.ttl := ttl;
    }

    // The token is what generateToken returned; when it fails, nothing is created.
    method Create(token: string, now: int)
      requires Valid()
      modifies this
      ensures Valid() && View() == Created(old(View()), token, now, ttl)
      ensures token in sessions && sessions[token].CreatedAt == now && sessions[token].LastAccessed == now
      ensures sessions[token].ExpiresAt == now + ttl && sessions.Keys == old(sessions.Keys) + {token}
      ensures fresh(sessions.Values - old(sessions.Values))
    {
      var session := new Session(token, now, ttl);
      sessions := sessions[token := session];
    }

    method Get(token: string, now: int) returns (session: Session?)
      requires Valid()
      modifies this, sessions.Values
      ensures Valid() && View() == Got(old(View()), token, now)
      ensures (session != null) == Answers(old(View()), token, now)
      ensures session != null ==> session.Token == token && token in sessions && sessions[token] == session
      ensures session != null <==> token in old(sessions) && now <= old(sessions)[token].ExpiresAt
      ensures session != null ==> session.LastAccessed == now && sessions == old(sessions)
      ensures session == null ==> sessions == old(sessions) - {token}
      ensures sessions.Values <= old(sessions.Values)
    {
      if token !in sessions {
        return null;
      }
      session := sessions[token];
      if now > session.ExpiresAt {
        sessions := sessions - {token};
        return null;
      }
      session.LastAccessed := now;
    }

    method Delete(token: string)
      requires Valid()
      modifies this
      ensures Valid() && View() == old(View()) - {token}
      ensures sessions.Values <= old(sessions.Values)
    {
      sessions := sessions - {token};
    }

    // Removes exactly the expired sessions and counts them.
    method CleanupExpired(now: int) returns (removed: nat)
      requires Valid()
      modifies this
      ensures Valid() && View() == old(View()) - Expired(old(View()), now)
      ensures removed == |Expired(old(View()), now)|
      ensures forall t :: t in sessions <==> t in old(sessions) && now <= old(sessions)[t].ExpiresAt
      ensures sessions.Values <= old(sessions.Values)
    {
      ghost var before := sessions;
      ghost var dead := set t | t in before && now > before[t].ExpiresAt;
      removed := RemoveAll(now, dead);
      assert dead == Expired(old(View()), now);
      assert View() == old(View()) - dead;
    }

    // The loop of CleanupExpired; `dead` names the expired tokens.
    method RemoveAll(now: int, ghost dead: set<string>) returns (removed: nat)
      requires dead <= sessions.Keys
      requires forall t | t in sessions :: t in dead <==> now > sessions[t].ExpiresAt
      modifies this`sessions
      ensures sessions == old(sessions) - dead && removed == |dead|
    {
      removed := 0;
      ghost var gone: set<string> := {};
      var todo := sessions.Keys;
      while todo != {}
        invariant todo <= old(sessions).Keys
        invariant forall t :: t in gone <==> t in dead && t !in todo
        invariant sessions == old(sessions) - gone && removed == |gone|
        decreases todo
      {
        var token :| token in todo;
        assert token !in gone;
        ghost var others := gone;
        if now > sessions[token].ExpiresAt {
          sessions := sessions - {token};
          removed := removed + 1;
          gone := gone + {token};
        }
        assert |gone| == if gone == others then |others| else |others| + 1;
        todo := todo - {token};
      }
      assert gone == dead;
    }
  }

  // ---- Whole runs ----

  // A call, with the clock `at` its critical section. Create and CleanupExpired
  // read the clock before they take the lock, so their `stamp` may be older.
  datatype Call =
    | Create(token: string, stamp: int, at: int)
    | Get(token: string, at: int)
    | Delete(token: string, at: int)
    | Cleanup(stamp: int, at: int)

  predicate InOrder(run: seq<Call>) {
    && (forall i, j :: 0 <= i < j < |run| ==> run[i].at <= run[j].at)
    && (forall i :: 0 <= i < |run| ==> (run[i].Create? || run[i].Cleanup? ==> run[i].stamp <= run[i].at))
  }

  // A token is never handed out twice.
  predicate FreshTokens(run: seq<Call>) {
    forall i, j :: 0 <= i < j < |run| && run[i].Create? && run[j].Create? ==> run[i].token != run[j].token
  }

  function Step(m: Store, call: Call, ttl: int): Store {
    match call
    case Create(token, stamp, _) => Created(m, token, stamp, ttl)
    case Get(token, at) => Got(m, token, at)
    case Delete(token, _) => m - {token}
    case Cleanup(stamp, _) => m - Expired(m, stamp)
  }

  function After(run: seq<Call>, ttl: int): Store {
    if run == [] then map[] else Step(After(run[..|run| - 1], ttl), run[|run| - 1], ttl)
  }

  // The store that never cleans up, never deletes on access and never touches a
  // session: it only remembers when each session still owed was created.
  function Ledger(run: seq<Call>): map<string, int> {
    if run == [] then map[] else Noted(Ledger(run[..|run| - 1]), run[|run| - 1])
  }

  function Noted(ledger: map<string, int>, call: Call): map<string, int> {
    match call
    case Create(token, stamp, _) => ledger[token := stamp]
    case Delete(token, _) => ledger - {token}
    case _ => ledger
  }

  // What the store holds is in the ledger, and what it has dropped has expired.
  ghost predicate Agree(m: Store, ledger: map<string, int>, ttl: int, clock: int) {
    && (forall t :: t in m ==> t in ledger && m[t].created == ledger[t] && m[t].expires == ledger[t] + ttl)
    && (forall t :: t in ledger && t !in m ==> ledger[t] + ttl < clock)
  }

  lemma {:induction false} StoreAgrees(run: seq<Call>, ttl: int, clock: int)
    requires InOrder(run) && (run != [] ==> run[|run| - 1].at <= clock)
    ensures Agree(After(run, ttl), Ledger(run), ttl, clock)
  {
    if run != [] {
      var n := |run| - 1;
      StoreAgrees(run[..n], ttl, run[n].at);
      StepAgrees(After(run[..n], ttl), Ledger(run[..n]), run[n], ttl);
    }
  }

  lemma StepAgrees(m: Store, ledger: map<string, int>, call: Call, ttl: int)
    requires Agree(m, ledger, ttl, call.at)
    requires call.Create? || call.Cleanup? ==> call.stamp <= call.at
    ensures Agree(Step(m, call, ttl), Noted(ledger, call), ttl, call.at)
  {
  }

  // A Get is answered exactly as the ledger answers it: neither cleanup, nor
  // deletion on access, nor earlier Gets can be noticed, and no Get extends
  // the life of a session.
  lemma {:induction false} CleanupIsUnobservable(run: seq<Call>, ttl: int, token: string, now: int)
    requires InOrder(run) && (run != [] ==> run[|run| - 1].at <= now)
    ensures Answers(After(run, ttl), token, now) <==>
              token in Ledger(run) && now <= Ledger(run)[token] + ttl
  {
    StoreAgrees(run, ttl, now);
  }

  // The last Create of the token, with no Delete of it since.
  predicate StandingSince(run: seq<Call>, token: string, i: nat) {
    && i < |run| && run[i].Create? && run[i].token == token
    && (forall j :: i < j < |run| ==> !(run[j].Create? && run[j].token == token))
    && (forall j :: i < j < |run| ==> !(run[j].Delete? && run[j].token == token))
  }

  lemma {:induction false} LedgerIsHistory(run: seq<Call>, token: string)
    ensures token in Ledger(run) <==> exists i: nat :: StandingSince(run, token, i)
    ensures forall i: nat :: StandingSince(run, token, i) ==> Ledger(run)[token] == run[i].stamp
  {
    if run != [] {
      var n := |run| - 1;
      var last := run[n];
      LedgerIsHistory(run[..n], token);
      if last.Create? && last.token == token {
        assert StandingSince(run, token, n);
      } else {
        forall i: nat | i < n
          ensures StandingSince(run, token, i) <==>
                    StandingSince(run[..n], token, i) && !(last.Delete? && last.token == token)
        {
        }
        assert !StandingSince(run, token, n);
      }
    }
  }

  // Get succeeds exactly when the token's session was created at most ttl ago
  // and not deleted since.
  lemma {:induction false} GetMeans(run: seq<Call>, ttl: int, token: string, now: int)
    requires InOrder(run) && (run != [] ==> run[|run| - 1].at <= now)
    ensures Answers(After(run, ttl), token, now) <==>
              exists i: nat :: StandingSince(run, token, i) && now <= run[i].stamp + ttl
  {
    CleanupIsUnobservable(run, ttl, token, now);
    LedgerIsHistory(run, token);
  }

  // Once a token that was issued gets no answer, it never gets one again.
  lemma {:induction false} DeadStaysDead(run: seq<Call>, ttl: int, i: nat, j: nat)
    requires InOrder(run) && FreshTokens(run)
    requires i <= j < |run| && run[i].Get? && run[j].Get? && run[i].token == run[j].token
    requires exists k :: 0 <= k < i && run[k].Create? && run[k].token == run[i].token
    requires !Answers(After(run[..i], ttl), run[i].token, run[i].at)
    ensures !Answers(After(run[..j], ttl), run[j].token, run[j].at)
  {
    var token := run[i].token;
    GetMeans(run[..i], ttl, token, run[i].at);
    GetMeans(run[..j], ttl, token, run[j].at);
    forall k: nat | StandingSince(run[..j], token, k)
      ensures run[j].at > run[k].stamp + ttl
    {
      assert k < i;
      assert StandingSince(run[..i], token, k);
    }
  }

  // A cleanup removes exactly the sessions that could never be answered again.
  lemma CleanupTakesOnlyTheDead(m: Store, stamp: int, token: string)
    requires token in m
    ensures token in Expired(m, stamp) <==> forall now :: now >= stamp ==> !Answers(m, token, now)
  {
    if token !in Expired(m, stamp) {
      assert Answers(m, token, stamp);
    }
  }
}
