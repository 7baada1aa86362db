/** The waves as a concurrent system: a pool of workers starts queued rules in
    submission order, rules finish in any order, finished results are collected
    in any order, and a wave ends when all of it has been collected. */
module Schedule {

  import opened Planner
  import opened RuleEngine

  /** The rule at a position of a wave. */
  datatype Job = Job(wave: nat, position: nat)

  datatype Event = Started(job: Job) | Finished(job: Job)

  /** Positions below `queued` of the current wave have been started;
      `running` and `done` are those not finished and not yet collected. */
  datatype State = State(wave: nat, queued: nat, running: set<nat>, done: set<nat>, collected: seq<Job>, log: seq<Event>)

  type Waves = seq<seq<Rule>>

  const INITIAL := State(0, 0, {}, {}, [], [])

  function WaveSize(waves: Waves, w: nat): nat
  {
    if w < |waves| then |waves[w]| else 0
  }

  ghost predicate Start(waves: Waves, maxWorkers: int, s: State, t: State)
  {
    && s.queued < WaveSize(waves, s.wave) && |s.running| < maxWorkers
    && t == s.(queued := s.queued + 1, running := s.running + {s.queued}, log := s.log + [Started(Job(s.wave, s.queued))])
  }

  ghost predicate Finish(s: State, t: State, p: nat)
  {
    && p in s.running
    && t == s.(running := s.running - {p}, done := s.done + {p}, log := s.log + [Finished(Job(s.wave, p))])
  }

  ghost predicate Collect(s: State, t: State, p: nat)
  {
    && p in s.done
    && t == s.(done := s.done - {p}, collected := s.collected + [Job(s.wave, p)])
  }

  ghost predicate Advance(waves: Waves, s: State, t: State)
  {
    && s.wave < |waves| && s.queued == WaveSize(waves, s.wave) && s.running == {} && s.done == {}
    && t == s.(wave := s.wave + 1, queued := 0)
  }

  ghost predicate Next(waves: Waves, maxWorkers: int, s: State, t: State)
  {
    || Start(waves, maxWorkers, s, t)
    || (exists p: nat :: Finish(s, t, p))
    || (exists p: nat :: Collect(s, t, p))
    || Advance(waves, s, t)
  }

  ghost predicate IsSchedule(waves: Waves, maxWorkers: int, run: seq<State>)
  {
    && |run| > 0 && run[0] == INITIAL
    && forall i :: 0 < i < |run| ==> Next(waves, maxWorkers, run[i - 1], run[i])
  }

  ghost predicate IsOver(waves: Waves, s: State)
  {
    s.wave == |waves|
  }

  // ----- The invariant -----

  ghost predicate ValidJob(waves: Waves, j: Job)
  {
    j.wave < |waves| && j.position < |waves[j.wave]|
  }

  /** Jobs whose result has been computed. */
  ghost predicate HasFinished(s: State, j: Job)
  {
    j.wave < s.wave || (j.wave == s.wave && j.position < s.queued && j.position !in s.running)
  }

  ghost predicate HasBeenCollected(s: State, j: Job)
  {
    HasFinished(s, j) && !(j.wave == s.wave && j.position in s.done)
  }

  ghost predicate Shape(waves: Waves, maxWorkers: int, s: State)
  {
    && s.wave <= |waves| && s.queued <= WaveSize(waves, s.wave)
    && (forall p :: p in s.running || p in s.done ==> p < s.queued)
    && s.running !! s.done
    && (|s.running| <= maxWorkers || s.running == {})
  }

  /** Every job is collected at most once, and exactly the collected ones are. */
  ghost predicate Accounts(waves: Waves, s: State)
  {
    forall j :: multiset(s.collected)[j] == if ValidJob(waves, j) && HasBeenCollected(s, j) then 1 else 0
  }

  /** Every finished job is in the log. */
  ghost predicate Logged(waves: Waves, s: State)
  {
    forall j :: ValidJob(waves, j) && HasFinished(s, j) ==> Finished(j) in s.log
  }

  /** Before a job starts, every job of every earlier wave has finished. */
  ghost predicate WavesInOrder(waves: Waves, log: seq<Event>)
  {
    forall i, k :: 0 <= i < |log| && log[i].Started? && ValidJob(waves, k) && k.wave < log[i].job.wave
      ==> Finished(k) in log[..i]
  }

  ghost predicate Inv(waves: Waves, maxWorkers: int, s: State)
  {
    Shape(waves, maxWorkers, s) && Accounts(waves, s) && Logged(waves, s) && WavesInOrder(waves, s.log)
  }

  lemma LogExtended(waves: Waves, log: seq<Event>, e: Event)
    requires WavesInOrder(waves, log)
    requires e.Started? ==> forall k :: ValidJob(waves, k) && k.wave < e.job.wave ==> Finished(k) in log
    ensures WavesInOrder(waves, log + [e])
  {
    var more := log + [e];
    forall i, k | 0 <= i < |more| && more[i].Started? && ValidJob(waves, k) && k.wave < more[i].job.wave
      ensures Finished(k) in more[..i]
    {
      if i < |log| {
        assert more[..i] == log[..i];
      } else {
        assert more[..i] == log;
      }
    }
  }

  lemma StartKeeps(waves: Waves, maxWorkers: int, s: State, t: State)
    requires Inv(waves, maxWorkers, s) && Start(waves, maxWorkers, s, t)
    ensures Inv(waves, maxWorkers, t)
  {
    LogExtended(waves, s.log, Started(Job(s.wave, s.queued)));
    assert forall j :: HasFinished(s, j) <==> HasFinished(t, j);
  }

  lemma FinishKeeps(waves: Waves, maxWorkers: int, s: State, t: State, p: nat)
    requires Inv(waves, maxWorkers, s) && Finish(s, t, p)
    ensures Inv(waves, maxWorkers, t)
  {
    LogExtended(waves, s.log, Finished(Job(s.wave, p)));
    assert forall j :: HasFinished(t, j) <==> HasFinished(s, j) || j == Job(s.wave, p);
    assert |t.running| == |s.running| - 1;
  }

  lemma CollectKeeps(waves: Waves, maxWorkers: int, s: State, t: State, p: nat)
    requires Inv(waves, maxWorkers, s) && Collect(s, t, p)
    ensures Inv(waves, maxWorkers, t)
  {
    var job := Job(s.wave, p);
    assert ValidJob(waves, job);
    forall j
      ensures multiset(t.collected)[j] == if ValidJob(waves, j) && HasBeenCollected(t, j) then 1 else 0
    {
      assert multiset(t.collected)[j] == multiset(s.collected)[j] + if j == job then 1 else 0;
      assert HasBeenCollected(t, j) <==> HasBeenCollected(s, j) || j == job;
    }
  }

  lemma AdvanceKeeps(waves: Waves, maxWorkers: int, s: State, t: State)
    requires Inv(waves, maxWorkers, s) && Advance(waves, s, t)
    ensures Inv(waves, maxWorkers, t)
  {
    assert forall j :: ValidJob(waves, j) ==> (HasFinished(t, j) <==> HasFinished(s, j));
  }

  lemma NextKeeps(waves: Waves, maxWorkers: int, s: State, t: State)
    requires Inv(waves, maxWorkers, s) && Next(waves, maxWorkers, s, t)
    ensures Inv(waves, maxWorkers, t)
  {
    hide Inv;
    if Start(waves, maxWorkers, s, t) {
      StartKeeps(waves, maxWorkers, s, t);
    } else if p: nat :| Finish(s, t, p) {
      FinishKeeps(waves, maxWorkers, s, t, p);
    } else if p: nat :| Collect(s, t, p) {
      CollectKeeps(waves, maxWorkers, s, t, p);
    } else {
      AdvanceKeeps(waves, maxWorkers, s, t);
    }
  }

  lemma {:induction false} ScheduleKeeps(waves: Waves, maxWorkers: int, run: seq<State>, i: nat)
    requires IsSchedule(waves, maxWorkers, run) && i < |run|
    ensures Inv(waves, maxWorkers, run[i])
  {
    hide Next;
    if i > 0 {
      ScheduleKeeps(waves, maxWorkers, run, i - 1);
      NextKeeps(waves, maxWorkers, run[i - 1], run[i]);
    }
  }

  ghost predicate LogsJobs(waves: Waves, s: State)
  {
    forall i :: 0 <= i < |s.log| ==> ValidJob(waves, s.log[i].job)
  }

  lemma OneMoreLogged(waves: Waves, s: State, t: State, e: Event)
    requires LogsJobs(waves, s) && t.log == s.log + [e] && ValidJob(waves, e.job)
    ensures LogsJobs(waves, t)
  {
  }

  lemma NextLogsJobs(waves: Waves, maxWorkers: int, s: State, t: State)
    requires Shape(waves, maxWorkers, s) && Next(waves, maxWorkers, s, t) && LogsJobs(waves, s)
    ensures LogsJobs(waves, t)
  {
    hide LogsJobs;
    if Start(waves, maxWorkers, s, t) {
      OneMoreLogged(waves, s, t, Started(Job(s.wave, s.queued)));
    } else if p: nat :| Finish(s, t, p) {
      OneMoreLogged(waves, s, t, Finished(Job(s.wave, p)));
    } else {
      SameLog(waves, s, t);
    }
  }

  lemma SameLog(waves: Waves, s: State, t: State)
    requires LogsJobs(waves, s) && t.log == s.log
    ensures LogsJobs(waves, t)
  {
  }

  /** Only jobs of the waves are ever started or finished. */
  lemma {:induction false} LoggedJobsExist(waves: Waves, maxWorkers: int, run: seq<State>, n: nat)
    requires IsSchedule(waves, maxWorkers, run) && n < |run|
    ensures LogsJobs(waves, run[n])
  {
    hide Inv, Next;
    if n > 0 {
      LoggedJobsExist(waves, maxWorkers, run, n - 1);
      ScheduleKeeps(waves, maxWorkers, run, n - 1);
      ShapeHolds(waves, maxWorkers, run[n - 1]);
      NextLogsJobs(waves, maxWorkers, run[n - 1], run[n]);
    }
  }

  // ----- The log tells which steps are open -----

  ghost predicate HasStarted(s: State, j: Job)
  {
    j.wave < s.wave || (j.wave == s.wave && j.position < s.queued)
  }

  /** Each job that has started or finished is logged so once, and no other is. */
  ghost predicate LogExact(waves: Waves, s: State)
  {
    forall j ::
      && multiset(s.log)[Started(j)] == (if ValidJob(waves, j) && HasStarted(s, j) then 1 else 0)
      && multiset(s.log)[Finished(j)] == (if ValidJob(waves, j) && HasFinished(s, j) then 1 else 0)
  }

  lemma CountsOneMore(log: seq<Event>, e: Event)
    ensures forall x :: multiset(log + [e])[x] == multiset(log)[x] + if x == e then 1 else 0
  {
  }

  lemma StartLogExact(waves: Waves, maxWorkers: int, s: State, t: State)
    requires Start(waves, maxWorkers, s, t) && LogExact(waves, s)
    ensures LogExact(waves, t)
  {
    var job := Job(s.wave, s.queued);
    CountsOneMore(s.log, Started(job));
    assert forall j :: HasStarted(t, j) <==> HasStarted(s, j) || j == job;
    assert forall j :: ValidJob(waves, j) ==> (HasFinished(t, j) <==> HasFinished(s, j) || (j == job && s.queued !in t.running));
  }

  lemma FinishLogExact(waves: Waves, s: State, t: State, p: nat)
    requires Finish(s, t, p) && LogExact(waves, s) && p < s.queued <= WaveSize(waves, s.wave)
    ensures LogExact(waves, t)
  {
    var job := Job(s.wave, p);
    CountsOneMore(s.log, Finished(job));
    assert ValidJob(waves, job) && !HasFinished(s, job);
    assert forall j :: HasStarted(t, j) <==> HasStarted(s, j);
    assert forall j :: HasFinished(t, j) <==> HasFinished(s, j) || j == job;
  }

  lemma QuietLogExact(waves: Waves, s: State, t: State)
    requires (exists p: nat :: Collect(s, t, p)) || Advance(waves, s, t)
    requires LogExact(waves, s)
    ensures LogExact(waves, t)
  {
    assert forall j :: ValidJob(waves, j) ==> (HasStarted(t, j) <==> HasStarted(s, j));
    assert forall j :: ValidJob(waves, j) ==> (HasFinished(t, j) <==> HasFinished(s, j));
  }

  lemma NextLogExact(waves: Waves, maxWorkers: int, s: State, t: State)
    requires Shape(waves, maxWorkers, s) && Next(waves, maxWorkers, s, t) && LogExact(waves, s)
    ensures LogExact(waves, t)
  {
    hide LogExact, Start, Finish, Collect, Advance;
    if Start(waves, maxWorkers, s, t) {
      StartLogExact(waves, maxWorkers, s, t);
    } else if p: nat :| Finish(s, t, p) {
      FinishIsRunning(s, t, p);
      FinishLogExact(waves, s, t, p);
    } else {
      QuietLogExact(waves, s, t);
    }
  }

  lemma FinishIsRunning(s: State, t: State, p: nat)
    requires Finish(s, t, p)
    ensures p in s.running
  {
  }

  /** Every job is logged as started and as finished at most once. */
  lemma {:induction false} LogIsExact(waves: Waves, maxWorkers: int, run: seq<State>, n: nat)
    requires IsSchedule(waves, maxWorkers, run) && n < |run|
    ensures LogExact(waves, run[n])
  {
    hide Inv, Next, LogExact;
    if n > 0 {
      LogIsExact(waves, maxWorkers, run, n - 1);
      ScheduleKeeps(waves, maxWorkers, run, n - 1);
      ShapeHolds(waves, maxWorkers, run[n - 1]);
      NextLogExact(waves, maxWorkers, run[n - 1], run[n]);
    } else {
      NothingLogged(waves);
    }
  }

  lemma NothingLogged(waves: Waves)
    ensures LogExact(waves, INITIAL)
  {
  }

  /** The jobs that have started and not finished, by the log. */
  ghost function UnderWay(log: seq<Event>): set<Job>
  {
    set e | e in log && e.Started? && Finished(e.job) !in log :: e.job
  }

  lemma {:induction false} JobsCount(wave: nat, positions: set<nat>)
    ensures |set p | p in positions :: Job(wave, p)| == |positions|
  {
    if positions != {} {
      var p :| p in positions;
      JobsCount(wave, positions - {p});
      assert (set q | q in positions :: Job(wave, q)) == (set q | q in positions - {p} :: Job(wave, q)) + {Job(wave, p)};
    }
  }

  /** In a reachable state the log and what has been collected say it all. */
  lemma Readable(waves: Waves, maxWorkers: int, run: seq<State>)
    requires IsSchedule(waves, maxWorkers, run)
    ensures var s := run[|run| - 1];
      && Shape(waves, maxWorkers, s)
      && (forall j :: Started(j) in s.log <==> ValidJob(waves, j) && HasStarted(s, j))
      && (forall j :: Finished(j) in s.log <==> ValidJob(waves, j) && HasFinished(s, j))
      && (forall j :: j in s.collected <==> ValidJob(waves, j) && HasBeenCollected(s, j))
      && |UnderWay(s.log)| == |s.running|
  {
    var s := run[|run| - 1];
    ScheduleKeeps(waves, maxWorkers, run, |run| - 1);
    LogIsExact(waves, maxWorkers, run, |run| - 1);
    assert forall e :: e in s.log <==> multiset(s.log)[e] > 0;
    assert forall j :: j in s.collected <==> multiset(s.collected)[j] > 0;
    var jobs := set p | p in s.running :: Job(s.wave, p);
    forall j
      ensures j in UnderWay(s.log) <==> j in jobs
    {
      assert j in UnderWay(s.log) <==> Started(j) in s.log && Finished(j) !in s.log;
    }
    assert UnderWay(s.log) == jobs;
    JobsCount(s.wave, s.running);
  }

  /** A job starts next exactly if it is the first one of its wave that has not
      started, and a worker is free. */
  lemma StartsNext(waves: Waves, maxWorkers: int, run: seq<State>, j: Job)
    requires IsSchedule(waves, maxWorkers, run)
    ensures var s := run[|run| - 1];
      (exists t :: Next(waves, maxWorkers, s, t) && t.log == s.log + [Started(j)]) <==>
      && j.wave == s.wave && ValidJob(waves, j) && Started(j) !in s.log
      && (forall p: nat :: p < j.position ==> Started(Job(j.wave, p)) in s.log)
      && |UnderWay(s.log)| < maxWorkers
  {
    var s := run[|run| - 1];
    Readable(waves, maxWorkers, run);
    hide UnderWay, IsSchedule;
    if t :| Next(waves, maxWorkers, s, t) && t.log == s.log + [Started(j)] {
      assert t.log[|s.log|] == Started(j);
      assert Start(waves, maxWorkers, s, t);
    }
    if j.wave == s.wave && ValidJob(waves, j) && Started(j) !in s.log && |UnderWay(s.log)| < maxWorkers
       && (forall p: nat :: p < j.position ==> Started(Job(j.wave, p)) in s.log) {
      assert j.position > s.queued ==> Started(Job(j.wave, s.queued)) in s.log;
      assert j.position == s.queued;
      var t := s.(queued := s.queued + 1, running := s.running + {s.queued}, log := s.log + [Started(Job(s.wave, s.queued))]);
      assert Start(waves, maxWorkers, s, t);
    }
  }

  /** Any job under way may finish next, and any finished one may be collected next. */
  lemma FinishesNext(waves: Waves, maxWorkers: int, run: seq<State>, j: Job)
    requires IsSchedule(waves, maxWorkers, run)
    ensures var s := run[|run| - 1];
      && ((exists t :: Next(waves, maxWorkers, s, t) && t.log == s.log + [Finished(j)]) <==>
          Started(j) in s.log && Finished(j) !in s.log)
      && ((exists t :: Next(waves, maxWorkers, s, t) && t.collected == s.collected + [j]) <==>
          Finished(j) in s.log && j !in s.collected)
  {
    var s := run[|run| - 1];
    Readable(waves, maxWorkers, run);
    hide UnderWay, IsSchedule;
    if t :| Next(waves, maxWorkers, s, t) && t.log == s.log + [Finished(j)] {
      assert t.log[|s.log|] == Finished(j);
      var p: nat :| Finish(s, t, p);
    }
    if Started(j) in s.log && Finished(j) !in s.log {
      var p := j.position;
      assert Finish(s, s.(running := s.running - {p}, done := s.done + {p}, log := s.log + [Finished(Job(s.wave, p))]), p);
    }
    if t :| Next(waves, maxWorkers, s, t) && t.collected == s.collected + [j] {
      assert t.collected[|s.collected|] == j;
      var p: nat :| Collect(s, t, p);
    }
    if Finished(j) in s.log && j !in s.collected {
      var p := j.position;
      assert Collect(s, s.(done := s.done - {p}, collected := s.collected + [Job(s.wave, p)]), p);
    }
  }

  /** The next wave begins exactly when all of this one has been collected. */
  lemma WaveEndsNext(waves: Waves, maxWorkers: int, run: seq<State>)
    requires IsSchedule(waves, maxWorkers, run)
    ensures var s := run[|run| - 1];
      (exists t :: Next(waves, maxWorkers, s, t) && t.wave == s.wave + 1) <==>
      s.wave < |waves| && forall p: nat :: p < |waves[s.wave]| ==> Job(s.wave, p) in s.collected
  {
    var s := run[|run| - 1];
    Readable(waves, maxWorkers, run);
    hide UnderWay, IsSchedule;
    if s.wave < |waves| && forall p: nat :: p < |waves[s.wave]| ==> Job(s.wave, p) in s.collected {
      assert s.queued < |waves[s.wave]| ==> Job(s.wave, s.queued) in s.collected;
      assert forall p :: p in s.running || p in s.done ==> Job(s.wave, p) in s.collected;
      assert s.running == {} && s.done == {};
      assert Advance(waves, s, s.(wave := s.wave + 1, queued := 0));
    }
  }

  // ----- What every schedule guarantees -----

  /** No more workers than allowed, in any reachable state. */
  lemma WorkersBounded(waves: Waves, maxWorkers: int, run: seq<State>, i: nat)
    requires IsSchedule(waves, maxWorkers, run) && i < |run|
    ensures run[i].running == {} || |run[i].running| <= maxWorkers
  {
    ScheduleKeeps(waves, maxWorkers, run, i);
  }

  /** When a rule starts, every rule it depends on, directly or not, is
      somewhere in the plan and has finished wherever it is. */
  lemma DependenciesFinishFirst(rules: seq<Rule>, waves: Waves, maxWorkers: int, run: seq<State>, n: nat, i: nat, d: Rule)
    requires IsStaged(rules, waves) && IsSchedule(waves, maxWorkers, run) && n < |run|
    requires i < |run[n].log| && run[n].log[i].Started? && ValidJob(waves, run[n].log[i].job)
    requires var j := run[n].log[i].job; d in rules && DependsOn(rules, waves[j.wave][j.position].id, d.id)
    ensures exists k :: ValidJob(waves, k) && waves[k.wave][k.position] == d
    ensures forall k :: ValidJob(waves, k) && waves[k.wave][k.position] == d ==> Finished(k) in run[n].log[..i]
  {
    hide DependsOn, IsSchedule, HasTiers, ById, Levelled;
    var j := run[n].log[i].job;
    ScheduleKeeps(waves, maxWorkers, run, n);
    assert d in multiset(rules);
    var at := FindRule(waves, d);
    var tiers: map<string, int>, levels :| (forall x :: x in rules ==> x.id in tiers) &&
      HasTiers(ById(rules), tiers) && Levelled(tiers, waves, levels);
    ByIdKeys(rules);
    forall k | ValidJob(waves, k) && waves[k.wave][k.position] == d
      ensures Finished(k) in run[n].log[..i]
    {
      DependenciesEarlier(rules, waves, tiers, levels, j.wave, k.wave, waves[j.wave][j.position], d);
    }
  }

  lemma {:induction false} FindRule(waves: Waves, d: Rule) returns (k: Job)
    requires d in Flatten(waves)
    ensures ValidJob(waves, k) && waves[k.wave][k.position] == d
  {
    var n := |waves| - 1;
    if d in waves[n] {
      var p :| 0 <= p < |waves[n]| && waves[n][p] == d;
      k := Job(n, p);
    } else {
      k := FindRule(waves[..n], d);
    }
  }

  // ----- The report of a finished schedule -----

  function JobsOfWave(w: nat, n: nat): seq<Job>
  {
    if n == 0 then [] else JobsOfWave(w, n - 1) + [Job(w, n - 1)]
  }

  /** All jobs of the first `w` waves, in order. */
  function AllJobs(waves: Waves, w: nat): seq<Job>
    requires w <= |waves|
  {
    if w == 0 then [] else AllJobs(waves, w - 1) + JobsOfWave(w - 1, |waves[w - 1]|)
  }

  lemma CountsAdd(a: seq<Job>, b: seq<Job>, j: Job)
    ensures multiset(a + b)[j] == multiset(a)[j] + multiset(b)[j]
  {
  }

  lemma {:induction false} JobsOfWaveOnce(w: nat, n: nat, j: Job)
    ensures multiset(JobsOfWave(w, n))[j] == if j.wave == w && j.position < n then 1 else 0
  {
    if n > 0 {
      JobsOfWaveOnce(w, n - 1, j);
    }
  }

  lemma AllJobsStep(waves: Waves, w: nat)
    requires 0 < w <= |waves|
    ensures AllJobs(waves, w) == AllJobs(waves, w - 1) + JobsOfWave(w - 1, |waves[w - 1]|)
  {
  }

  lemma NoJobs(waves: Waves)
    ensures AllJobs(waves, 0) == []
  {
  }

  lemma AddWave(waves: Waves, w: nat, a: seq<Job>, b: seq<Job>, j: Job)
    requires 0 < w <= |waves|
    requires multiset(a)[j] == if j.wave < w - 1 && ValidJob(waves, j) then 1 else 0
    requires multiset(b)[j] == if j.wave == w - 1 && j.position < |waves[w - 1]| then 1 else 0
    ensures multiset(a + b)[j] == if j.wave < w && ValidJob(waves, j) then 1 else 0
  {
    CountsAdd(a, b, j);
    assert j.wave == w - 1 ==> waves[j.wave] == waves[w - 1];
  }

  lemma {:induction false} AllJobsOnce(waves: Waves, w: nat, j: Job)
    requires w <= |waves|
    ensures multiset(AllJobs(waves, w))[j] == if j.wave < w && ValidJob(waves, j) then 1 else 0
  {
    hide JobsOfWave, AllJobs, ValidJob;
    if w == 0 {
      NoJobs(waves);
    } else {
      AllJobsOnce(waves, w - 1, j);
      JobsOfWaveOnce(w - 1, |waves[w - 1]|, j);
      AllJobsStep(waves, w);
      AddWave(waves, w, AllJobs(waves, w - 1), JobsOfWave(w - 1, |waves[w - 1]|), j);
    }
  }

  /** When the last wave is over, every job has been collected exactly once. */
  lemma EachCollectedOnce(waves: Waves, maxWorkers: int, run: seq<State>, n: nat)
    requires IsSchedule(waves, maxWorkers, run) && n < |run| && IsOver(waves, run[n])
    ensures multiset(run[n].collected) == multiset(AllJobs(waves, |waves|))
  {
    ScheduleKeeps(waves, maxWorkers, run, n);
    forall j: Job
      ensures multiset(run[n].collected)[j] == multiset(AllJobs(waves, |waves|))[j]
    {
      AllJobsOnce(waves, |waves|, j);
    }
  }

  /** The findings of a job. */
  function JobViolations(detect: Detector, maxRetries: int, waves: Waves, j: Job): seq<Violation>
  {
    if j.wave < |waves| && j.position < |waves[j.wave]|
    then Violations(detect, maxRetries, waves[j.wave][j.position]) else []
  }

  ghost function CollectedViolations(detect: Detector, maxRetries: int, waves: Waves, jobs: seq<Job>): seq<Violation>
  {
    Gather(j => JobViolations(detect, maxRetries, waves, j), jobs)
  }

  lemma GatherOne<A>(f: A -> seq<Violation>, x: A)
    ensures Gather(f, [x]) == f(x)
  {
    assert [x][..0] == [];
    assert [] + f(x) == f(x);
  }

  lemma CollectedConcat(detect: Detector, maxRetries: int, waves: Waves, a: seq<Job>, b: seq<Job>)
    ensures CollectedViolations(detect, maxRetries, waves, a + b) ==
      CollectedViolations(detect, maxRetries, waves, a) + CollectedViolations(detect, maxRetries, waves, b)
  {
    GatherConcat(j => JobViolations(detect, maxRetries, waves, j), a, b);
  }

  lemma AllConcat(detect: Detector, maxRetries: int, a: seq<Rule>, b: seq<Rule>)
    ensures AllViolations(detect, maxRetries, a + b) == AllViolations(detect, maxRetries, a) + AllViolations(detect, maxRetries, b)
  {
    GatherConcat(rule => Violations(detect, maxRetries, rule), a, b);
  }

  lemma OneJob(detect: Detector, maxRetries: int, waves: Waves, j: Job)
    requires ValidJob(waves, j)
    ensures CollectedViolations(detect, maxRetries, waves, [j]) == AllViolations(detect, maxRetries, [waves[j.wave][j.position]])
  {
    hide Violations, Gather;
    GatherOne(i => JobViolations(detect, maxRetries, waves, i), j);
    GatherOne(rule => Violations(detect, maxRetries, rule), waves[j.wave][j.position]);
  }

  lemma {:induction false} WaveViolations(detect: Detector, maxRetries: int, waves: Waves, w: nat, n: nat)
    requires w < |waves| && n <= |waves[w]|
    ensures CollectedViolations(detect, maxRetries, waves, JobsOfWave(w, n)) == AllViolations(detect, maxRetries, waves[w][..n])
  {
    if n > 0 {
      hide CollectedViolations, AllViolations;
      WaveViolations(detect, maxRetries, waves, w, n - 1);
      OneJob(detect, maxRetries, waves, Job(w, n - 1));
      CollectedConcat(detect, maxRetries, waves, JobsOfWave(w, n - 1), [Job(w, n - 1)]);
      AllConcat(detect, maxRetries, waves[w][..n - 1], [waves[w][n - 1]]);
      assert waves[w][..n] == waves[w][..n - 1] + [waves[w][n - 1]];
    }
  }

  lemma {:induction false} AllJobsViolations(detect: Detector, maxRetries: int, waves: Waves, w: nat)
    requires w <= |waves|
    ensures CollectedViolations(detect, maxRetries, waves, AllJobs(waves, w)) == AllViolations(detect, maxRetries, Flatten(waves[..w]))
  {
    if w > 0 {
      hide CollectedViolations, AllViolations, JobsOfWave;
      var last := waves[w - 1];
      AllJobsViolations(detect, maxRetries, waves, w - 1);
      WaveViolations(detect, maxRetries, waves, w - 1, |last|);
      assert last[..|last|] == last;
      assert waves[..w][..w - 1] == waves[..w - 1];
      CollectedConcat(detect, maxRetries, waves, AllJobs(waves, w - 1), JobsOfWave(w - 1, |last|));
      AllConcat(detect, maxRetries, Flatten(waves[..w - 1]), last);
    }
  }

  /** Both ways of forming waves hold the rules as often as they were given. */
  lemma WavesHoldTheRules(rules: seq<Rule>, waves: Waves)
    requires IsPlan(rules, waves) || waves == [rules]
    ensures multiset(Flatten(waves)) == multiset(rules)
  {
    if IsPlan(rules, waves) {
      GroupsPartition(rules, waves);
    } else {
      assert waves[..0] == [] && Flatten(waves) == [] + rules;
    }
  }

  /** Whatever the schedule, the remaining fingerprints are those of all rules'
      findings, and the number of duplicates removed is the same. */
  lemma ScheduleDoesNotMatter(detect: Detector, maxRetries: int, rules: seq<Rule>, waves: Waves, maxWorkers: int,
                              run: seq<State>, n: nat)
    requires multiset(Flatten(waves)) == multiset(rules)
    requires IsSchedule(waves, maxWorkers, run) && n < |run| && IsOver(waves, run[n])
    ensures var found := CollectedViolations(detect, maxRetries, waves, run[n].collected);
      var all := AllViolations(detect, maxRetries, rules);
      Prints(Firsts(found)) == Prints(all) && |found| - |Firsts(found)| == |all| - |Prints(all)|
  {
    hide IsSchedule, Violations;
    var f := j => JobViolations(detect, maxRetries, waves, j);
    var g := rule => Violations(detect, maxRetries, rule);
    var found := CollectedViolations(detect, maxRetries, waves, run[n].collected);
    EachCollectedOnce(waves, maxWorkers, run, n);
    GatherPermuted(f, run[n].collected, AllJobs(waves, |waves|));
    AllJobsViolations(detect, maxRetries, waves, |waves|);
    assert waves[..|waves|] == waves;
    GatherPermuted(g, Flatten(waves), rules);
    PrintsPermuted(found, AllViolations(detect, maxRetries, rules));
    FirstsKeepPrints(found);
  }

  // ----- Progress -----

  /** With at least one worker a schedule that is not over can go on. */
  lemma NeverStuck(waves: Waves, maxWorkers: int, run: seq<State>) returns (t: State)
    requires IsSchedule(waves, maxWorkers, run) && maxWorkers > 0 && !IsOver(waves, run[|run| - 1])
    ensures Next(waves, maxWorkers, run[|run| - 1], t)
  {
    var s := run[|run| - 1];
    ScheduleKeeps(waves, maxWorkers, run, |run| - 1);
    if p: nat :| p in s.done {
      t := s.(done := s.done - {p}, collected := s.collected + [Job(s.wave, p)]);
      assert Collect(s, t, p);
    } else if p: nat :| p in s.running {
      t := s.(running := s.running - {p}, done := s.done + {p}, log := s.log + [Finished(Job(s.wave, p))]);
      assert Finish(s, t, p);
    } else if s.queued < WaveSize(waves, s.wave) {
      t := s.(queued := s.queued + 1, running := s.running + {s.queued}, log := s.log + [Started(Job(s.wave, s.queued))]);
    } else {
      t := s.(wave := s.wave + 1, queued := 0);
    }
  }

  /** Jobs in the waves before `w`. */
  ghost function JobsBefore(waves: Waves, w: nat): nat
    requires w <= |waves|
  {
    if w == 0 then 0 else JobsBefore(waves, w - 1) + |waves[w - 1]|
  }

  /** Three steps for each job started and one for each wave left behind. */
  ghost function StepsDone(waves: Waves, s: State): int
    requires s.wave <= |waves|
  {
    3 * (JobsBefore(waves, s.wave) + s.queued) - 2 * |s.running| - |s.done| + s.wave
  }

  lemma {:induction false} JobsBeforeGrows(waves: Waves, v: nat, w: nat)
    requires v <= w <= |waves|
    ensures JobsBefore(waves, v) + (if v < w then |waves[v]| else 0) <= JobsBefore(waves, w)
  {
    if v < w {
      JobsBeforeGrows(waves, v, w - 1);
    }
  }

  lemma OneStepCounted(waves: Waves, maxWorkers: int, s: State, t: State)
    requires Shape(waves, maxWorkers, s) && Shape(waves, maxWorkers, t) && Next(waves, maxWorkers, s, t)
    ensures StepsDone(waves, t) == StepsDone(waves, s) + 1
  {
    hide Start, Finish, Collect, Advance, StepsDone;
    if Start(waves, maxWorkers, s, t) {
      StartCounted(waves, maxWorkers, s, t);
    } else if p: nat :| Finish(s, t, p) {
      FinishCounted(waves, maxWorkers, s, t, p);
    } else if p: nat :| Collect(s, t, p) {
      CollectCounted(waves, s, t, p);
    } else {
      AdvanceCounted(waves, s, t);
    }
  }

  lemma StartCounted(waves: Waves, maxWorkers: int, s: State, t: State)
    requires Shape(waves, maxWorkers, s) && Start(waves, maxWorkers, s, t)
    ensures StepsDone(waves, t) == StepsDone(waves, s) + 1
  {
    assert s.queued !in s.running;
  }

  lemma FinishCounted(waves: Waves, maxWorkers: int, s: State, t: State, p: nat)
    requires Shape(waves, maxWorkers, s) && Finish(s, t, p)
    ensures StepsDone(waves, t) == StepsDone(waves, s) + 1
  {
    assert |t.running| == |s.running| - 1 && |t.done| == |s.done| + 1;
  }

  lemma CollectCounted(waves: Waves, s: State, t: State, p: nat)
    requires s.wave <= |waves| && Collect(s, t, p)
    ensures StepsDone(waves, t) == StepsDone(waves, s) + 1
  {
    assert |t.done| == |s.done| - 1;
  }

  lemma AdvanceCounted(waves: Waves, s: State, t: State)
    requires Advance(waves, s, t)
    ensures StepsDone(waves, t) == StepsDone(waves, s) + 1
  {
  }

  lemma {:induction false} StepsCounted(waves: Waves, maxWorkers: int, run: seq<State>, i: nat)
    requires IsSchedule(waves, maxWorkers, run) && i < |run|
    ensures run[i].wave <= |waves| && StepsDone(waves, run[i]) == i
  {
    hide Inv, Next;
    ScheduleKeeps(waves, maxWorkers, run, i);
    ShapeHolds(waves, maxWorkers, run[i]);
    if i > 0 {
      StepsCounted(waves, maxWorkers, run, i - 1);
      ScheduleKeeps(waves, maxWorkers, run, i - 1);
      ShapeHolds(waves, maxWorkers, run[i - 1]);
      OneStepCounted(waves, maxWorkers, run[i - 1], run[i]);
    }
  }

  lemma ShapeHolds(waves: Waves, maxWorkers: int, s: State)
    requires Inv(waves, maxWorkers, s)
    ensures Shape(waves, maxWorkers, s)
  {
  }

  /** No schedule is longer than three steps a job and one a wave, and when it
      is over it is exactly that long. */
  lemma SchedulesEnd(waves: Waves, maxWorkers: int, run: seq<State>)
    requires IsSchedule(waves, maxWorkers, run)
    ensures |run| - 1 <= 3 * JobsBefore(waves, |waves|) + |waves|
    ensures IsOver(waves, run[|run| - 1]) ==> |run| - 1 == 3 * JobsBefore(waves, |waves|) + |waves|
  {
    hide Next;
    var s := run[|run| - 1];
    StepsCounted(waves, maxWorkers, run, |run| - 1);
    ScheduleKeeps(waves, maxWorkers, run, |run| - 1);
    JobsBeforeGrows(waves, s.wave, |waves|);
    if IsOver(waves, s) {
      assert s.running == {} && s.done == {};
    }
  }
}
