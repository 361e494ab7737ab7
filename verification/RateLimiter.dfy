// The per-IP sliding-window rate limiter.
//
// Go slices share their backing arrays: `valid := timestamps[:0]` filters the
// slice over the array it is read from, and the final append writes into that
// array while it has room. The class keeps that representation; its contract
// says it does what the pure function Decide does on the visible contents.
module RateLimiting {
  // A slice from the start of its backing array.
  datatype Slice = Slice(buf: array<int>, len: nat)

  // What a limiter shows: the timestamps kept for each IP.
  type Windows = map<string, seq<int>>

  // The timestamps after the cutoff.
  function Prune(ts: seq<int>, cutoff: int): seq<int> {
    if ts == [] then []
    else
      var front := Prune(ts[..|ts| - 1], cutoff);
      if ts[|ts| - 1] > cutoff then front + [ts[|ts| - 1]] else front
  }

  function Kept(w: Windows, ip: string): seq<int> {
    if ip in w then w[ip] else []
  }

  // One call of Allow at time `now`.
  function Decide(w: Windows, ip: string, now: int, limit: int, window: int): (Windows, bool) {
    Settle(w, ip, Prune(Kept(w, ip), now - window), now, limit)
  }

  // The verdict, given the timestamps still valid.
  function Settle(w: Windows, ip: string, valid: seq<int>, now: int, limit: int): (Windows, bool) {
    if |valid| < limit then (w[ip := valid + [now]], true)
    else if valid == [] then (w - {ip}, false)
    else (w[ip := valid], false)
  }

  // Settling in the steps of Allow: an empty window is deleted before the rest.
  lemma SettleInSteps(w: Windows, w': Windows, ip: string, valid: seq<int>, now: int, limit: int)
    requires w' == if valid == [] then w - {ip} else w
    ensures Settle(w, ip, valid, now, limit)
            == if |valid| < limit then (w'[ip := valid + [now]], true)
               else (if valid == [] then w' else w'[ip := valid], false)
  {
    assert (w - {ip})[ip := valid + [now]] == w[ip := valid + [now]];
  }

  // No IP is kept with nothing to remember of it.
  predicate NoneEmpty(w: Windows) {
    forall ip :: ip in w ==> w[ip] != []
  }

  lemma DecideForgets(w: Windows, ip: string, now: int, limit: int, window: int)
    requires NoneEmpty(w)
    ensures NoneEmpty(Decide(w, ip, now, limit, window).0)
  {
  }

  // An IP's window holds nothing older than the window after a call of that IP.
  lemma {:induction false} PruneIsFresh(ts: seq<int>, cutoff: int)
    ensures forall x :: x in Prune(ts, cutoff) <==> x in ts && x > cutoff
  {
    if ts != [] {
      PruneIsFresh(ts[..|ts| - 1], cutoff);
    }
  }

  lemma DecideDropsOld(w: Windows, ip: string, now: int, limit: int, window: int)
    ensures var (w', allowed) := Decide(w, ip, now, limit, window);
            forall x :: x in Kept(w', ip) <==> (x in Kept(w, ip) && x > now - window) || (allowed && x == now)
  {
    PruneIsFresh(Kept(w, ip), now - window);
  }

  class RateLimiter {
    var windows: map<string, Slice>
    const limit: int
    const window: int
    ghost var Contents: Windows
    ghost var Repr: set<object>

    ghost predicate Valid()
      reads this, Repr
    {
      && this in Repr && windows.Keys == Contents.Keys
      && (forall ip :: ip in windows ==> Holds(windows[ip], Contents[ip]))
      && OwnArrays()
    }

    ghost predicate Holds(s: Slice, ts: seq<int>)
      reads this, Repr
    {
      s.buf in Repr && s.len <= s.buf.Length && s.buf[..s.len] == ts
    }

    // No two IPs share a backing array.
    ghost predicate OwnArrays()
      reads this
    {
      forall ip, ip' :: ip in windows && ip' in windows && ip != ip' ==> windows[ip].buf != windows[ip'].buf
    }

    // Valid but for the slice of one IP, which may be under way.
    ghost predicate ValidExcept(ip: string)
      reads this, Repr
    {
      && this in Repr && windows.Keys == Contents.Keys
      && (forall other :: other in windows && other != ip ==> Holds(windows[other], Contents[other]))
      && OwnArrays()
    }

    ghost predicate Unshared(ip: string, buf: array<int>)
      reads this
    {
      forall other :: other in windows && other != ip ==> windows[other].buf != buf
    }

    constructor (limit: int, window: int)
      ensures Valid() && fresh(Repr) && Contents == map[]
      ensures this.limit == limit && this.window == window
    {
      this.limit := limit;
      this.window := window;
      windows := map[];
      Contents := map[];
      Repr := {this};
    }

    // `now` is the clock, read inside the critical section.
    method Allow(ip: string, now: int) returns (allowed: bool)
      requires Valid()
      modifies Repr
      ensures Valid() && fresh(Repr - old(Repr))
      ensures Contents == Decide(old(Contents), ip, now, limit, window).0
      ensures allowed == Decide(old(Contents), ip, now, limit, window).1
    {
      var valid := PruneWindow(ip, now - window);
      ghost var kept := Prune(Kept(old(Contents), ip), now - window);
      assert valid.buf[..valid.len] == kept;
      SettleInSteps(old(Contents), Contents, ip, kept, now, limit);
      allowed := Record(ip, valid, now);
    }

    // The second half of Allow: the verdict, and what is kept.
    method Record(ip: string, valid: Slice, now: int) returns (allowed: bool)
      requires ValidExcept(ip) && valid.len <= valid.buf.Length && Unshared(ip, valid.buf)
      requires valid.len == 0 ==> ip !in windows
      modifies this, valid.buf
      ensures Valid() && fresh(Repr - old(Repr) - {valid.buf}) && allowed == (valid.len < limit)
      ensures Contents == if allowed then old(Contents)[ip := old(valid.buf[..valid.len]) + [now]]
                          else if valid.len == 0 then old(Contents)
                          else old(Contents)[ip := old(valid.buf[..valid.len])]
    {
      if valid.len >= limit {
        Keep(ip, valid);
        return false;
      }
      AppendWindow(ip, valid, now);
      return true;
    }

    // A denied call keeps the pruned slice, unless it is empty.
    method Keep(ip: string, valid: Slice)
      requires ValidExcept(ip) && valid.len <= valid.buf.Length && Unshared(ip, valid.buf)
      requires valid.len == 0 ==> ip !in windows
      modifies this
      ensures Valid() && Repr <= old(Repr) + {valid.buf}
      ensures Contents == if valid.len == 0 then old(Contents) else old(Contents)[ip := valid.buf[..valid.len]]
    {
      if valid.len > 0 {
        Put(ip, valid);
      }
    }

    // rl.windows[ip] = append(valid, now)
    method AppendWindow(ip: string, valid: Slice, now: int)
      requires ValidExcept(ip) && valid.len <= valid.buf.Length && Unshared(ip, valid.buf)
      modifies this, valid.buf
      ensures Valid() && fresh(Repr - old(Repr) - {valid.buf})
      ensures Contents == old(Contents)[ip := old(valid.buf[..valid.len]) + [now]]
    {
      var extended := Append(valid, now);
      Put(ip, extended);
    }

    // The first half of Allow: prune the IP's slice, and delete its entry if
    // nothing is left.
    method PruneWindow(ip: string, cutoff: int) returns (valid: Slice)
      requires Valid()
      modifies Repr
      ensures ValidExcept(ip) && Unshared(ip, valid.buf) && Repr == old(Repr)
      ensures valid.buf in Repr || fresh(valid.buf)
      ensures valid.len <= valid.buf.Length && valid.buf[..valid.len] == Prune(Kept(old(Contents), ip), cutoff)
      ensures Contents == if valid.len == 0 then old(Contents) - {ip} else old(Contents)
      ensures valid.len == 0 ==> ip !in windows
    {
      var ts := Get(ip);
      valid := FilterInPlace(ts, cutoff);
      if valid.len == 0 {
        Delete(ip);
      }
    }

    // rl.windows[ip]; a missing IP has the nil slice.
    method Get(ip: string) returns (ts: Slice)
      requires Valid()
      ensures ts.len <= ts.buf.Length && ts.buf[..ts.len] == Kept(Contents, ip)
      ensures Unshared(ip, ts.buf) && (ts.buf in Repr || fresh(ts.buf))
    {
      if ip in windows {
        return windows[ip];
      }
      var empty := new int[0];
      ts := Slice(empty, 0);
    }

    method Delete(ip: string)
      requires ValidExcept(ip)
      modifies this
      ensures Valid() && Repr == old(Repr) && Contents == old(Contents) - {ip}
      ensures windows == old(windows) - {ip}
    {
      windows := windows - {ip};
      Contents := Contents - {ip};
    }

    method Put(ip: string, s: Slice)
      requires ValidExcept(ip) && s.len <= s.buf.Length && Unshared(ip, s.buf)
      modifies this
      ensures Valid() && Repr == old(Repr) + {s.buf}
      ensures Contents == old(Contents)[ip := s.buf[..s.len]]
    {
      windows := windows[ip := s];
      Contents := Contents[ip := s.buf[..s.len]];
      Repr := Repr + {s.buf};
    }
  }

  // The pruning loop: it writes behind the point it reads from, in the same array.
  method FilterInPlace(ts: Slice, cutoff: int) returns (valid: Slice)
    requires ts.len <= ts.buf.Length
    modifies ts.buf
    ensures valid.buf == ts.buf && valid.len <= ts.len
    ensures valid.buf[..valid.len] == Prune(old(ts.buf[..ts.len]), cutoff)
  {
    ghost var stamps := ts.buf[..ts.len];
    var k := 0;
    for i := 0 to ts.len
      invariant 0 <= k <= i
      invariant ts.buf[..k] == Prune(stamps[..i], cutoff)
      invariant forall j :: i <= j < ts.len ==> ts.buf[j] == stamps[j]
    {
      assert stamps[..i + 1][..i] == stamps[..i];
      if ts.buf[i] > cutoff {
        ts.buf[k] := ts.buf[i];
        k := k + 1;
        assert ts.buf[..k] == ts.buf[..k - 1] + [stamps[i]];
      }
    }
    assert stamps[..ts.len] == stamps;
    valid := Slice(ts.buf, k);
  }

  // Go's append: in place while the array has room, else into a larger one.
  method Append(s: Slice, x: int) returns (r: Slice)
    requires s.len <= s.buf.Length
    modifies s.buf
    ensures r.len == s.len + 1 <= r.buf.Length
    ensures r.buf == s.buf || fresh(r.buf)
    ensures r.buf[..r.len] == old(s.buf[..s.len]) + [x]
  {
    var buf := s.buf;
    if s.len == buf.Length {
      buf := new int[2 * s.len + 1];
      forall j | 0 <= j < s.len {
        buf[j] := s.buf[j];
      }
    }
    buf[s.len] := x;
    r := Slice(buf, s.len + 1);
  }

  // ---- Whole runs ----

  datatype Call = Call(ip: string, at: int)

  predicate Monotone(calls: seq<Call>) {
    forall i, j :: 0 <= i < j < |calls| ==> calls[i].at <= calls[j].at
  }

  // A run of the limiter from its creation: its windows and its verdicts.
  function Replay(calls: seq<Call>, limit: int, window: int): (r: (Windows, seq<bool>))
    ensures |r.1| == |calls|
  {
    if calls == [] then (map[], [])
    else
      var (w, verdicts) := Replay(calls[..|calls| - 1], limit, window);
      var last := calls[|calls| - 1];
      var (w', allowed) := Decide(w, last.ip, last.at, limit, window);
      (w', verdicts + [allowed])
  }

  lemma ReplayOneMore(front: seq<Call>, call: Call, limit: int, window: int)
    ensures Replay(front + [call], limit, window).0
            == Decide(Replay(front, limit, window).0, call.ip, call.at, limit, window).0
  {
    assert (front + [call])[..|front|] == front;
  }

  // How many allowed calls of one IP lie in (from, to]. Nothing is forgotten.
  function Granted(calls: seq<Call>, verdicts: seq<bool>, ip: string, from: int, to: int): nat
    requires |calls| == |verdicts|
  {
    if calls == [] then 0
    else
      var n := |calls| - 1;
      Granted(calls[..n], verdicts[..n], ip, from, to)
      + if verdicts[n] && calls[n].ip == ip && from < calls[n].at <= to then 1 else 0
  }

  // One more call is granted if the replayed limiter allows it.
  lemma GrantedOneMore(front: seq<Call>, call: Call, limit: int, window: int, ip: string, from: int, to: int)
    ensures var calls := front + [call];
            Granted(calls, Replay(calls, limit, window).1, ip, from, to)
            == Granted(front, Replay(front, limit, window).1, ip, from, to)
               + if Decide(Replay(front, limit, window).0, call.ip, call.at, limit, window).1
                    && call.ip == ip && from < call.at <= to then 1 else 0
  {
    var calls, verdicts := front + [call], Replay(front, limit, window).1;
    assert calls[..|calls| - 1] == front;
    assert Replay(calls, limit, window).1[..|front|] == verdicts;
  }

  // The verdicts of a limiter that keeps its whole history: a call is allowed
  // exactly when fewer than `limit` allowed calls of its IP lie in (at-window, at].
  function FullHistory(calls: seq<Call>, limit: int, window: int): (verdicts: seq<bool>)
    ensures |verdicts| == |calls|
  {
    if calls == [] then []
    else
      var n := |calls| - 1;
      var front := FullHistory(calls[..n], limit, window);
      front + [Granted(calls[..n], front, calls[n].ip, calls[n].at - window, calls[n].at) < limit]
  }

  // How many timestamps lie after `from`.
  function Later(ts: seq<int>, from: int): nat {
    if ts == [] then 0 else Later(ts[..|ts| - 1], from) + if ts[|ts| - 1] > from then 1 else 0
  }

  // Pruning drops nothing that a later cutoff would count.
  lemma {:induction false} LaterPruned(ts: seq<int>, cutoff: int, from: int)
    requires cutoff <= from
    ensures Later(Prune(ts, cutoff), from) == Later(ts, from)
    ensures |Prune(ts, cutoff)| == Later(ts, cutoff)
  {
    if ts != [] {
      LaterPruned(ts[..|ts| - 1], cutoff, from);
      LaterAppend(Prune(ts[..|ts| - 1], cutoff), ts[|ts| - 1], from);
    }
  }

  lemma LaterAppend(ts: seq<int>, x: int, from: int)
    ensures Later(ts + [x], from) == Later(ts, from) + if x > from then 1 else 0
  {
    assert (ts + [x])[..|ts|] == ts;
  }

  // What the windows hold after a run is what the history says, as far back as
  // the window reaches.
  lemma {:induction false} WindowsHoldHistory(calls: seq<Call>, limit: int, window: int, ip: string, from: int, to: int)
    requires Monotone(calls)
    requires calls != [] ==> from >= calls[|calls| - 1].at - window && calls[|calls| - 1].at <= to
    ensures var (w, verdicts) := Replay(calls, limit, window);
            Later(Kept(w, ip), from) == Granted(calls, verdicts, ip, from, to)
  {
    if calls != [] {
      var n := |calls| - 1;
      var (w, verdicts) := Replay(calls[..n], limit, window);
      WindowsHoldHistory(calls[..n], limit, window, ip, from, to);
      if ip == calls[n].ip {
        DecideCounts(w, ip, calls[n].at, limit, window, from);
      } else {
        OtherIpsUntouched(w, calls[n].ip, calls[n].at, limit, window, ip);
      }
      assert Replay(calls, limit, window).1[..n] == verdicts;
    }
  }

  // A call adds one to the count of its own IP if it is allowed.
  lemma DecideCounts(w: Windows, ip: string, now: int, limit: int, window: int, from: int)
    requires from >= now - window
    ensures var (w', allowed) := Decide(w, ip, now, limit, window);
            Later(Kept(w', ip), from) == Later(Kept(w, ip), from) + if allowed && from < now then 1 else 0
  {
    LaterPruned(Kept(w, ip), now - window, from);
    SettleCounts(w, ip, Prune(Kept(w, ip), now - window), now, limit, from);
  }

  lemma SettleCounts(w: Windows, ip: string, valid: seq<int>, now: int, limit: int, from: int)
    ensures var (w', allowed) := Settle(w, ip, valid, now, limit);
            Later(Kept(w', ip), from) == Later(valid, from) + if allowed && from < now then 1 else 0
  {
    LaterAppend(valid, now, from);
  }

  // The limiter, which forgets, gives the verdicts of the one that does not.
  lemma {:induction false} RefinesFullHistory(calls: seq<Call>, limit: int, window: int)
    requires Monotone(calls)
    ensures Replay(calls, limit, window).1 == FullHistory(calls, limit, window)
  {
    if calls != [] {
      var n := |calls| - 1;
      RefinesFullHistory(calls[..n], limit, window);
      HistoryDecides(calls[..n], limit, window, calls[n].ip, calls[n].at);
    }
  }

  // The limiter decides by the calls it let past in the last window.
  lemma HistoryDecides(calls: seq<Call>, limit: int, window: int, ip: string, at: int)
    requires Monotone(calls) && (calls != [] ==> calls[|calls| - 1].at <= at)
    ensures var (w, verdicts) := Replay(calls, limit, window);
            Decide(w, ip, at, limit, window).1 <==> Granted(calls, verdicts, ip, at - window, at) < limit
  {
    WindowsHoldHistory(calls, limit, window, ip, at - window, at);
    DecideCompares(Replay(calls, limit, window).0, ip, at, limit, window);
  }

  lemma DecideCompares(w: Windows, ip: string, now: int, limit: int, window: int)
    ensures Decide(w, ip, now, limit, window).1 <==> Later(Kept(w, ip), now - window) < limit
  {
    LaterPruned(Kept(w, ip), now - window, now - window);
  }

  // No interval (a, a+window] of any run has more than `limit` allowed calls of one IP.
  lemma {:induction false} NeverOverLimit(calls: seq<Call>, limit: int, window: int, ip: string, a: int)
    requires Monotone(calls)
    ensures Granted(calls, Replay(calls, limit, window).1, ip, a, a + window) <= if limit > 0 then limit else 0
  {
    RefinesFullHistory(calls, limit, window);
    FullHistoryBound(calls, limit, window, ip, a);
  }

  lemma {:induction false} FullHistoryBound(calls: seq<Call>, limit: int, window: int, ip: string, a: int)
    requires Monotone(calls)
    ensures Granted(calls, FullHistory(calls, limit, window), ip, a, a + window) <= if limit > 0 then limit else 0
  {
    if calls != [] {
      var n := |calls| - 1;
      var last := calls[n];
      var front := FullHistory(calls[..n], limit, window);
      FullHistoryBound(calls[..n], limit, window, ip, a);
      assert FullHistory(calls, limit, window)[..n] == front;
      GrantedWithin(calls[..n], front, ip, a, a + window, last.at - window, last.at);
    }
  }

  // A shorter reach back counts no more, when no call lies beyond `to`.
  lemma {:induction false} GrantedWithin(calls: seq<Call>, verdicts: seq<bool>, ip: string,
                                         from: int, to: int, from': int, to': int)
    requires |calls| == |verdicts| && forall i :: 0 <= i < |calls| ==> calls[i].at <= to'
    ensures from' <= from ==> Granted(calls, verdicts, ip, from, to) <= Granted(calls, verdicts, ip, from', to')
  {
    if calls != [] {
      var n := |calls| - 1;
      GrantedWithin(calls[..n], verdicts[..n], ip, from, to, from', to');
    }
  }

  // A call leaves the windows of every other IP as they were.
  lemma OtherIpsUntouched(w: Windows, ip: string, now: int, limit: int, window: int, other: string)
    requires other != ip
    ensures Kept(Decide(w, ip, now, limit, window).0, other) == Kept(w, other)
    ensures other in Decide(w, ip, now, limit, window).0 <==> other in w
  {
  }
}
