/** Sliding-window rate limiting: one queue of admission times per client. */
module RateLimit {

  datatype Request = Request(client: string, isHealthCheck: bool, now: real)

  datatype Outcome = Bypassed | Admitted | Rejected

  /** `requests` per `window` seconds, as configured. */
  datatype Limit = Limit(requests: int, window: real)

  // ----- What a run of requests should look like -----

  /** The times at which requests of the client were admitted. */
  ghost function Admissions(rs: seq<Request>, os: seq<Outcome>, client: string): seq<real>
    requires |rs| == |os|
    decreases |rs|, 0
  {
    if rs == [] then [] else
      var n := |rs| - 1;
      AdmissionsAfter(rs[..n], os[..n], rs[n], os[n], client)
  }

  ghost function AdmissionsAfter(rs: seq<Request>, os: seq<Outcome>, r: Request, o: Outcome, client: string): seq<real>
    requires |rs| == |os|
    decreases |rs|, 1
  {
    if o == Admitted && r.client == client then Admissions(rs, os, client) + [r.now] else Admissions(rs, os, client)
  }

  /** The times in the closed interval from `from` to `to`. */
  ghost function Within(ts: seq<real>, from: real, to: real): (r: seq<real>)
  {
    if ts == [] then [] else
      Within(ts[..|ts| - 1], from, to) +
      (if from <= ts[|ts| - 1] <= to then [ts[|ts| - 1]] else [])
  }

  ghost predicate Ordered(ts: seq<real>)
  {
    forall i, j :: 0 <= i < j < |ts| ==> ts[i] <= ts[j]
  }

  ghost predicate NotAfter(ts: seq<real>, now: real)
  {
    forall i :: 0 <= i < |ts| ==> ts[i] <= now
  }

  /** The clock never runs backwards. */
  ghost predicate Monotonic(rs: seq<Request>)
  {
    forall i, j :: 0 <= i < j < |rs| ==> rs[i].now <= rs[j].now
  }

  /** The decision the policy calls for: health checks pass, and any other
      request is rejected iff the client already had `requests` admissions
      within the window that ends now. */
  ghost predicate Decides(limit: Limit, rs: seq<Request>, os: seq<Outcome>, r: Request, o: Outcome)
    requires |rs| == |os|
  {
    if r.isHealthCheck then o == Bypassed
    else
      var recent := Within(Admissions(rs, os, r.client), r.now - limit.window, r.now);
      o == if |recent| >= limit.requests then Rejected else Admitted
  }

  ghost predicate Complies(limit: Limit, rs: seq<Request>, os: seq<Outcome>)
  {
    && |os| == |rs|
    && forall k :: 0 <= k < |rs| ==> Decides(limit, rs[..k], os[..k], rs[k], os[k])
  }

  lemma {:induction false} AdmissionsOrdered(rs: seq<Request>, os: seq<Outcome>, client: string)
    requires |rs| == |os| && Monotonic(rs)
    ensures Ordered(Admissions(rs, os, client))
    ensures rs != [] ==> NotAfter(Admissions(rs, os, client), rs[|rs| - 1].now)
  {
    if rs != [] {
      var n := |rs| - 1;
      AdmissionsOrdered(rs[..n], os[..n], client);
    }
  }

  lemma {:induction false} WithinEmpty(ts: seq<real>, from: real, to: real)
    requires forall i :: 0 <= i < |ts| ==> !(from <= ts[i] <= to)
    ensures Within(ts, from, to) == []
  {
    if ts != [] {
      WithinEmpty(ts[..|ts| - 1], from, to);
    }
  }

  lemma {:induction false} WithinAll(ts: seq<real>, from: real, to: real)
    requires forall i :: 0 <= i < |ts| ==> from <= ts[i] <= to
    ensures Within(ts, from, to) == ts
  {
    if ts != [] {
      WithinAll(ts[..|ts| - 1], from, to);
      assert ts == ts[..|ts| - 1] + [ts[|ts| - 1]];
    }
  }

  lemma {:induction false} WithinConcat(a: seq<real>, b: seq<real>, from: real, to: real)
    ensures Within(a + b, from, to) == Within(a, from, to) + Within(b, from, to)
  {
    if b == [] {
      assert a + b == a;
    } else {
      var n := |b| - 1;
      assert (a + b)[..|a + b| - 1] == a + b[..n];
      WithinConcat(a, b[..n], from, to);
    }
  }

  /** A wider interval holds at least as many times. */
  lemma {:induction false} WithinWider(ts: seq<real>, from: real, to: real, wideFrom: real, wideTo: real)
    requires forall i :: 0 <= i < |ts| && from <= ts[i] <= to ==> wideFrom <= ts[i] <= wideTo
    ensures |Within(ts, from, to)| <= |Within(ts, wideFrom, wideTo)|
  {
    if ts != [] {
      WithinWider(ts[..|ts| - 1], from, to, wideFrom, wideTo);
    }
  }

  function AtLeastZero(n: int): nat
  {
    if n > 0 then n else 0
  }

  /** A policy-conforming admission cannot overfill any interval. */
  lemma OneMoreFits(limit: Limit, ts: seq<real>, now: real, from: real)
    requires NotAfter(ts, now)
    requires |Within(ts, now - limit.window, now)| < limit.requests
    requires |Within(ts, from, from + limit.window)| <= AtLeastZero(limit.requests)
    ensures |Within(ts + [now], from, from + limit.window)| <= AtLeastZero(limit.requests)
  {
    var to := from + limit.window;
    assert (ts + [now])[..|ts|] == ts;
    if from <= now <= to {
      WithinWider(ts, from, to, now - limit.window, now);
    }
  }

  /** Whatever the interval of window length, no client is admitted more often
      in it than the limit allows. */
  lemma {:induction false} WindowBound(limit: Limit, rs: seq<Request>, os: seq<Outcome>, client: string, from: real)
    requires Monotonic(rs) && Complies(limit, rs, os)
    ensures |Within(Admissions(rs, os, client), from, from + limit.window)| <= AtLeastZero(limit.requests)
  {
    hide Complies;
    SameLength(limit, rs, os);
    if rs != [] {
      hide Within;
      var n := |rs| - 1;
      var ts := Admissions(rs[..n], os[..n], client);
      CompliesPrefix(limit, rs, os);
      WindowBound(limit, rs[..n], os[..n], client, from);
      LastDecided(limit, rs, os);
      AdmissionsBefore(rs, os, client);
      if os[n] == Admitted && rs[n].client == client {
        OneMoreFits(limit, ts, rs[n].now, from);
      } else {
        assert Admissions(rs, os, client) == ts;
      }
    }
  }

  lemma AdmissionsBefore(rs: seq<Request>, os: seq<Outcome>, client: string)
    requires |rs| == |os| && rs != [] && Monotonic(rs)
    ensures NotAfter(Admissions(rs[..|rs| - 1], os[..|rs| - 1], client), rs[|rs| - 1].now)
  {
    var n := |rs| - 1;
    AdmissionsOrdered(rs[..n], os[..n], client);
  }

  lemma CompliesPrefix(limit: Limit, rs: seq<Request>, os: seq<Outcome>)
    requires rs != [] && Complies(limit, rs, os)
    ensures Complies(limit, rs[..|rs| - 1], os[..|rs| - 1])
  {
    var n := |rs| - 1;
    forall k | 0 <= k < n
      ensures Decides(limit, rs[..n][..k], os[..n][..k], rs[..n][k], os[..n][k])
    {
      assert rs[..n][..k] == rs[..k] && os[..n][..k] == os[..k];
    }
  }

  lemma LastDecided(limit: Limit, rs: seq<Request>, os: seq<Outcome>)
    requires rs != [] && Complies(limit, rs, os)
    ensures var n := |rs| - 1; Decides(limit, rs[..n], os[..n], rs[n], os[n])
  {
  }

  lemma SameLength(limit: Limit, rs: seq<Request>, os: seq<Outcome>)
    requires Complies(limit, rs, os)
    ensures |os| == |rs|
  {
  }

  lemma DecisionUnique(limit: Limit, rs: seq<Request>, os: seq<Outcome>, r: Request, o: Outcome, u: Outcome)
    requires |rs| == |os| && Decides(limit, rs, os, r, o) && Decides(limit, rs, os, r, u)
    ensures o == u
  {
  }

  /** The policy leaves no choice. */
  lemma {:induction false} OutcomesDetermined(limit: Limit, rs: seq<Request>, os: seq<Outcome>, us: seq<Outcome>)
    requires Complies(limit, rs, os) && Complies(limit, rs, us)
    ensures os == us
  {
    hide Complies, Decides;
    SameLength(limit, rs, os);
    SameLength(limit, rs, us);
    if rs != [] {
      var n := |rs| - 1;
      CompliesPrefix(limit, rs, os);
      CompliesPrefix(limit, rs, us);
      OutcomesDetermined(limit, rs[..n], os[..n], us[..n]);
      LastDecided(limit, rs, os);
      LastDecided(limit, rs, us);
      DecisionUnique(limit, rs[..n], os[..n], rs[n], os[n], us[n]);
      assert os == os[..n] + [os[n]] && us == us[..n] + [us[n]];
    }
  }

  // ----- The policy, told by counting requests -----

  /** The requests of the client admitted in the closed interval. */
  ghost function AdmittedIn(rs: seq<Request>, os: seq<Outcome>, client: string, from: real, to: real): set<int>
    requires |rs| == |os|
  {
    set i | 0 <= i < |rs| && rs[i].client == client && os[i] == Admitted && from <= rs[i].now && rs[i].now <= to
  }

  lemma {:induction false} WithinCounts(rs: seq<Request>, os: seq<Outcome>, client: string, from: real, to: real)
    requires |rs| == |os|
    ensures |Within(Admissions(rs, os, client), from, to)| == |AdmittedIn(rs, os, client, from, to)|
  {
    if rs == [] {
      assert AdmittedIn(rs, os, client, from, to) == {};
    } else {
      hide Within, AdmittedIn;
      var n := |rs| - 1;
      var before := Admissions(rs[..n], os[..n], client);
      WithinCounts(rs[..n], os[..n], client, from, to);
      WithinSnoc(before, rs[n].now, from, to);
      AdmittedSnoc(rs, os, client, from, to);
    }
  }

  lemma WithinSnoc(ts: seq<real>, now: real, from: real, to: real)
    ensures |Within(ts + [now], from, to)| == |Within(ts, from, to)| + if from <= now <= to then 1 else 0
  {
    assert (ts + [now])[..|ts|] == ts;
  }

  lemma AdmittedSnoc(rs: seq<Request>, os: seq<Outcome>, client: string, from: real, to: real)
    requires |rs| == |os| && rs != []
    ensures var n := |rs| - 1;
      var counted := os[n] == Admitted && rs[n].client == client && from <= rs[n].now <= to;
      |AdmittedIn(rs, os, client, from, to)| == |AdmittedIn(rs[..n], os[..n], client, from, to)| + if counted then 1 else 0
  {
    var n := |rs| - 1;
    var counted := os[n] == Admitted && rs[n].client == client && from <= rs[n].now <= to;
    var before, after := AdmittedIn(rs[..n], os[..n], client, from, to), AdmittedIn(rs, os, client, from, to);
    forall i
      ensures i in after <==> i in before || (counted && i == n)
    {
    }
    hide AdmittedIn;
    assert after == if counted then before + {n} else before;
    assert n !in before;
  }

  /** The admitted requests of the same client that came no more than `window` before. */
  ghost function Recent(limit: Limit, rs: seq<Request>, os: seq<Outcome>, r: Request): set<int>
    requires |rs| == |os|
  {
    set i | 0 <= i < |rs| && rs[i].client == r.client && os[i] == Admitted && r.now - rs[i].now <= limit.window
  }

  /** A health check passes; any other request is rejected exactly when at least
      `requests` earlier ones of the same client were admitted no more than
      `window` before it. */
  lemma DecisionCounts(limit: Limit, rs: seq<Request>, os: seq<Outcome>, r: Request, o: Outcome)
    requires |rs| == |os| && forall i :: 0 <= i < |rs| ==> rs[i].now <= r.now
    ensures Decides(limit, rs, os, r, o) <==>
      && (o == Bypassed <==> r.isHealthCheck)
      && (o == Rejected <==> !r.isHealthCheck && |Recent(limit, rs, os, r)| >= limit.requests)
  {
    WithinCounts(rs, os, r.client, r.now - limit.window, r.now);
    assert AdmittedIn(rs, os, r.client, r.now - limit.window, r.now) == Recent(limit, rs, os, r);
  }

  /** In every closed interval of window length, at most `requests` requests of a
      client are admitted, and none when the limit is not positive. */
  lemma WindowCount(limit: Limit, rs: seq<Request>, os: seq<Outcome>, client: string, from: real)
    requires Monotonic(rs) && Complies(limit, rs, os)
    ensures var admitted := set i | 0 <= i < |rs| && rs[i].client == client && os[i] == Admitted
                                    && from <= rs[i].now && rs[i].now <= from + limit.window;
      if limit.requests > 0 then |admitted| <= limit.requests else admitted == {}
  {
    SameLength(limit, rs, os);
    WindowBound(limit, rs, os, client, from);
    WithinCounts(rs, os, client, from, from + limit.window);
    assert AdmittedIn(rs, os, client, from, from + limit.window) ==
      set i | 0 <= i < |rs| && rs[i].client == client && os[i] == Admitted
              && from <= rs[i].now && rs[i].now <= from + limit.window;
  }

  // ----- The middleware -----

  /** The queue holds the client's admissions except some that have left every
      window ending at or after `now`. */
  ghost predicate Keeps(queue: seq<real>, admissions: seq<real>, window: real, now: real)
  {
    && |queue| <= |admissions|
    && queue == admissions[|admissions| - |queue|..]
    && forall i :: 0 <= i < |admissions| - |queue| ==> now - admissions[i] > window
  }

  lemma DropOldest(queue: seq<real>, admissions: seq<real>, window: real, now: real)
    requires Keeps(queue, admissions, window, now) && queue != [] && now - queue[0] > window
    ensures Keeps(queue[1..], admissions, window, now)
  {
  }

  lemma KeepAdmitted(queue: seq<real>, admissions: seq<real>, window: real, now: real)
    requires Keeps(queue, admissions, window, now)
    ensures Keeps(queue + [now], admissions + [now], window, now)
  {
  }

  lemma MonotonicExtend(rs: seq<Request>, r: Request)
    requires Monotonic(rs) && (rs != [] ==> rs[|rs| - 1].now <= r.now)
    ensures Monotonic(rs + [r])
  {
  }

  /** After eviction the queue is exactly the recent admissions. */
  lemma EvictedIsRecent(queue: seq<real>, admissions: seq<real>, window: real, now: real)
    requires Keeps(queue, admissions, window, now) && Ordered(admissions)
    requires queue != [] ==> now - queue[0] <= window
    requires NotAfter(admissions, now)
    ensures queue == Within(admissions, now - window, now)
  {
    hide Within;
    var dropped := admissions[..|admissions| - |queue|];
    assert admissions == dropped + queue;
    WithinConcat(dropped, queue, now - window, now);
    WithinEmpty(dropped, now - window, now);
    WithinAll(queue, now - window, now);
  }

  class RateLimitMiddleware {
    const limit: Limit
    var queues: map<string, seq<real>>
    ghost var served: seq<Request>
    ghost var outcomes: seq<Outcome>

    ghost function Queue(client: string): seq<real>
      reads this
    {
      if client in queues then queues[client] else []
    }

    /** Everything served so far followed the policy, and every queue can still
        answer for its client whenever the next request comes. */
    ghost predicate Valid()
      reads this
    {
      && Monotonic(served)
      && Complies(limit, served, outcomes)
      && (served == [] ==> forall c :: Queue(c) == [])
      && (served != [] ==> forall c ::
            Keeps(Queue(c), Admissions(served, outcomes, c), limit.window, served[|served| - 1].now))
    }

    constructor (limit: Limit)
      ensures Valid() && this.limit == limit && served == [] && outcomes == []
    {
      this.limit := limit;
      queues := map[];
      served := [];
      outcomes := [];
    }

    method Evict(client: string, now: real, ghost admissions: seq<real>) returns (recent: seq<real>)
      requires Keeps(Queue(client), admissions, limit.window, now)
      modifies this`queues
      ensures queues == old(queues)[client := recent]
      ensures Keeps(recent, admissions, limit.window, now)
      ensures recent != [] ==> now - recent[0] <= limit.window
    {
      recent := if client in queues then queues[client] else [];
      queues := queues[client := recent];
      while recent != [] && now - recent[0] > limit.window
        invariant queues == old(queues)[client := recent]
        invariant Keeps(recent, admissions, limit.window, now)
      {
        DropOldest(recent, admissions, limit.window, now);
        recent := recent[1..];
        queues := queues[client := recent];
      }
    }

    /** The decision and what becomes of the queues. */
    method Judge(r: Request) returns (o: Outcome)
      requires |served| == |outcomes| && Monotonic(served) && (served != [] ==> served[|served| - 1].now <= r.now)
      requires forall c :: Keeps(Queue(c), Admissions(served, outcomes, c), limit.window, r.now)
      modifies this`queues
      ensures Decides(limit, served, outcomes, r, o)
      ensures forall c :: Keeps(Queue(c), AdmissionsAfter(served, outcomes, r, o, c), limit.window, r.now)
    {
      hide Within, Keeps, Admissions, Monotonic;
      ghost var ts := Admissions(served, outcomes, r.client);
      if r.isHealthCheck {
        o := Bypassed;
      } else {
        var recent := Evict(r.client, r.now, ts);
        RecentAdmissions(recent, r, ts);
        if |recent| >= limit.requests {
          o := Rejected;
        } else {
          KeepAdmitted(recent, ts, limit.window, r.now);
          queues := queues[r.client := recent + [r.now]];
          o := Admitted;
        }
        assert forall c :: c != r.client ==> Queue(c) == old(Queue(c));
      }
    }

    method Dispatch(r: Request) returns (o: Outcome)
      requires Valid() && (served != [] ==> served[|served| - 1].now <= r.now)
      modifies this
      ensures Valid()
      ensures served == old(served) + [r] && outcomes == old(outcomes) + [o]
      ensures Decides(limit, old(served), old(outcomes), r, o)
      ensures |old(served)| == |old(outcomes)|
      ensures o == Bypassed <==> r.isHealthCheck
      ensures o == Rejected <==> !r.isHealthCheck && |Recent(limit, old(served), old(outcomes), r)| >= limit.requests
    {
      ClockBehind(r.now);
      DecidedByCount(r);
      hide Within, Complies, Keeps, Admissions, Monotonic, Decides, AdmissionsAfter, Recent;
      SameLength(limit, served, outcomes);
      AgeKept(r.now);
      o := Judge(r);
      CompliesExtend(limit, served, outcomes, r, o);
      MonotonicExtend(served, r);
      served := served + [r];
      outcomes := outcomes + [o];
    }

    lemma ClockBehind(now: real)
      requires Monotonic(served) && (served != [] ==> served[|served| - 1].now <= now)
      ensures forall i :: 0 <= i < |served| ==> served[i].now <= now
    {
    }

    lemma DecidedByCount(r: Request)
      requires |served| == |outcomes| && forall i :: 0 <= i < |served| ==> served[i].now <= r.now
      ensures forall o :: Decides(limit, served, outcomes, r, o) ==>
        && (o == Bypassed <==> r.isHealthCheck)
        && (o == Rejected <==> !r.isHealthCheck && |Recent(limit, served, outcomes, r)| >= limit.requests)
    {
      forall o
        ensures Decides(limit, served, outcomes, r, o) ==>
          && (o == Bypassed <==> r.isHealthCheck)
          && (o == Rejected <==> !r.isHealthCheck && |Recent(limit, served, outcomes, r)| >= limit.requests)
      {
        DecisionCounts(limit, served, outcomes, r, o);
      }
    }

    lemma RecentAdmissions(recent: seq<real>, r: Request, ts: seq<real>)
      requires |served| == |outcomes| && Monotonic(served) && (served != [] ==> served[|served| - 1].now <= r.now)
      requires ts == Admissions(served, outcomes, r.client) && Keeps(recent, ts, limit.window, r.now)
      requires recent != [] ==> r.now - recent[0] <= limit.window
      ensures recent == Within(ts, r.now - limit.window, r.now)
    {
      AdmissionsOrdered(served, outcomes, r.client);
      EvictedIsRecent(recent, ts, limit.window, r.now);
    }

    /** Queues stay good as time passes. */
    lemma AgeKept(now: real)
      requires Valid() && (served != [] ==> served[|served| - 1].now <= now)
      ensures forall c :: Keeps(Queue(c), Admissions(served, outcomes, c), limit.window, now)
    {
    }
  }

  lemma CompliesExtend(limit: Limit, rs: seq<Request>, os: seq<Outcome>, r: Request, o: Outcome)
    requires Complies(limit, rs, os) && Decides(limit, rs, os, r, o)
    ensures Complies(limit, rs + [r], os + [o])
    ensures forall c :: Admissions(rs + [r], os + [o], c) == AdmissionsAfter(rs, os, r, o, c)
  {
    var ss, us := rs + [r], os + [o];
    assert ss[..|rs|] == rs && us[..|rs|] == os;
    forall k | 0 <= k < |ss|
      ensures Decides(limit, ss[..k], us[..k], ss[k], us[k])
    {
      if k < |rs| {
        assert ss[..k] == rs[..k] && us[..k] == os[..k];
        assert Decides(limit, rs[..k], os[..k], rs[k], os[k]);
      }
    }
  }
}
