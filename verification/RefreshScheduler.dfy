/**
 * The account refresh scheduler (src/domain/account-refresh-scheduler.ts) as a
 * machine: one event per call into, or callback out of, the closure state. The
 * class that does what the source does, and whose log proves that everything it
 * does is a run of this machine, is in SchedulerObject.
 */
module RefreshScheduler {
  import opened Lists

  /** A job's object identity: jobs are numbered in order of creation. */
  type Ticket = nat

  datatype Phase = Queued | Running
  datatype Settlement = Resolved | Rejected
  datatype Job = Job(id: string, exclusive: bool)

  /**
   * `issued` holds the fields of every job ever created and `manual` the
   * tickets whose priority is now "manual". `view` is what an observer of the
   * `changed` callback has last been told, `settled` what became of each
   * promise, and `orphans` the jobs that were active at some reset.
   */
  datatype State = State(
    jobs: map<string, Ticket>,
    pending: seq<Ticket>,
    active: set<Ticket>,
    issued: seq<Job>,
    manual: set<Ticket>,
    settled: map<Ticket, Settlement>,
    view: map<string, Phase>,
    orphans: set<Ticket>)

  const Init := State(map[], [], {}, [], {}, map[], map[], {})

  /**
   * `Start(None)` starts the next job and its `run` suspends; with a settlement
   * the job finishes before `execute` first suspends (it was no longer current,
   * or `run` threw at once). `Finish` is the later completion of an active job.
   */
  datatype Event =
    | Enqueue(id: string, exclusive: bool, manual: bool)
    | Start(atOnce: Option<Settlement>)
    | Finish(job: Ticket, outcome: Settlement)
    | Reset

  /** Index of the job `drain` looks at: the first manual one, else the first. */
  function Next(pending: seq<Ticket>, manual: set<Ticket>): (i: nat)
    requires pending != []
    ensures i < |pending|
    ensures forall j :: 0 <= j < |pending| && pending[j] in manual ==> i <= j && pending[i] in manual
    ensures (forall j :: 0 <= j < |pending| ==> pending[j] !in manual) ==> i == 0
  {
    FirstManual(pending, manual)
  }

  function FirstManual(pending: seq<Ticket>, manual: set<Ticket>): (i: nat)
    requires pending != []
    ensures i < |pending|
    ensures forall j :: 0 <= j < |pending| && pending[j] in manual ==> i <= j && pending[i] in manual
    ensures (forall j :: 0 <= j < |pending| ==> pending[j] !in manual) ==> i == 0
  {
    if pending[0] in manual || |pending| == 1 then 0
    else
      var rest := FirstManual(pending[1..], manual);
      assert forall j :: 1 <= j < |pending| ==> pending[j] == pending[1..][j - 1];
      if pending[rest + 1] in manual then rest + 1 else 0
  }

  predicate Exclusive(s: State, t: Ticket) {
    t < |s.issued| && s.issued[t].exclusive
  }

  /** `drain` has nothing to start: the negation of its loop guard and breaks. */
  predicate Blocked(c: nat, s: State) {
    || s.pending == []
    || |s.active| >= c
    || (exists t :: t in s.active && Exclusive(s, t))
    || (Exclusive(s, s.pending[Next(s.pending, s.manual)]) && s.active != {})
  }

  predicate Enabled(c: nat, s: State, e: Event) {
    match e
    case Enqueue(_, _, _) => true
    case Start(_) => !Blocked(c, s)
    case Finish(t, _) => t in s.active
    case Reset => true
  }

  /** The `finally` block of `execute`, together with settling the promise. */
  function Conclude(s: State, t: Ticket, o: Settlement): State {
    var s := s.(active := s.active - {t}, settled := s.settled[t := o]);
    if IsMapped(s, t)
    then s.(jobs := s.jobs - {s.issued[t].id}, view := s.view - {s.issued[t].id})
    else s
  }

  function Apply(c: nat, s: State, e: Event): State
    requires Enabled(c, s, e)
  {
    match e
    case Enqueue(id, exclusive, manual) =>
      if id in s.jobs then
        if manual then s.(manual := s.manual + {s.jobs[id]}) else s
      else
        var t := |s.issued|;
        s.(jobs := s.jobs[id := t], pending := s.pending + [t], issued := s.issued + [Job(id, exclusive)],
           manual := if manual then s.manual + {t} else s.manual, view := s.view[id := Queued])
    case Start(atOnce) =>
      var i := Next(s.pending, s.manual);
      var t := s.pending[i];
      var s := s.(pending := RemoveAt(s.pending, i), active := s.active + {t},
                  view := if t < |s.issued| then s.view[s.issued[t].id := Running] else s.view);
      (match atOnce case None => s case Some(o) => Conclude(s, t, o))
    case Finish(t, o) => Conclude(s, t, o)
    case Reset =>
      s.(jobs := map[], pending := [], view := s.view - s.jobs.Keys, orphans := s.orphans + s.active,
         settled := s.settled + map t | t in s.pending :: Resolved)
  }

  /** Runs: the events happen in order, each enabled when it happens. */
  predicate Legal(c: nat, s: State, es: seq<Event>)
    decreases |es|, 0
  {
    es == [] || (Legal(c, s, es[..|es| - 1]) && Enabled(c, Run(c, s, es[..|es| - 1]), es[|es| - 1]))
  }

  function Run(c: nat, s: State, es: seq<Event>): State
    requires Legal(c, s, es)
    decreases |es|, 1
  {
    if es == [] then s else Apply(c, Run(c, s, es[..|es| - 1]), es[|es| - 1])
  }

  // ---- Safety ----------------------------------------------------------------

  /** Each issued ticket is pending, active or settled, and only one of them. */
  ghost predicate Conserved(s: State) {
    && Distinct(s.pending)
    && (forall t :: t in s.pending ==> t < |s.issued| && t !in s.active && t !in s.settled)
    && (forall t :: t in s.active ==> t < |s.issued| && t !in s.settled)
    && (forall t :: t in s.settled ==> t < |s.issued|)
    && (forall t: nat :: t < |s.issued| ==> t in s.pending || t in s.active || t in s.settled)
  }

  /** The pool is bounded and an active exclusive job is alone. */
  ghost predicate Bounded(c: nat, s: State) {
    && |s.active| <= c
    && (forall t, u :: t in s.active && u in s.active && Exclusive(s, t) ==> u == t)
  }

  /** The map holds exactly the pending jobs and the active ones no reset orphaned. */
  ghost predicate Mapped(s: State) {
    && (forall id :: id in s.jobs ==> Holds(s, id, s.jobs[id]))
    && (forall t :: t in s.pending ==> IsMapped(s, t) && t !in s.orphans)
    && (forall t :: t in s.active && t !in s.orphans ==> IsMapped(s, t))
    && (forall t :: t in s.orphans ==> t < |s.issued|)
  }

  predicate Holds(s: State, id: string, t: Ticket) {
    t < |s.issued| && s.issued[t].id == id && (t in s.pending || (t in s.active && t !in s.orphans))
  }

  predicate IsMapped(s: State, t: Ticket) {
    t < |s.issued| && s.issued[t].id in s.jobs && s.jobs[s.issued[t].id] == t
  }

  /** The observer was last told "queued" of pending jobs, "running" of mapped active ones, null of the rest. */
  ghost predicate Observed(s: State) {
    && s.view.Keys == s.jobs.Keys
    && (forall id :: id in s.jobs ==> s.view[id] == if s.jobs[id] in s.pending then Queued else Running)
  }

  ghost predicate Safe(c: nat, s: State) {
    Conserved(s) && Bounded(c, s) && Mapped(s) && Observed(s)
  }

  lemma ConcludeConserves(c: nat, s: State, t: Ticket, o: Settlement)
    requires Conserved(s) && Bounded(c, s) && t in s.active
    ensures Conserved(Conclude(s, t, o)) && Bounded(c, Conclude(s, t, o))
  {
    assert |s.active - {t}| == |s.active| - 1;
  }

  lemma ConcludeKeepsTheMap(s: State, t: Ticket, o: Settlement)
    requires Mapped(s) && t in s.active && t !in s.pending
    ensures Mapped(Conclude(s, t, o))
  {
    var s' := Conclude(s, t, o);
    forall id | id in s'.jobs ensures Holds(s', id, s'.jobs[id]) { assert Holds(s, id, s.jobs[id]); }
    forall u | u in s'.pending || (u in s'.active && u !in s'.orphans) ensures IsMapped(s', u) { assert IsMapped(s, u); }
  }

  lemma ConcludeIsObserved(s: State, t: Ticket, o: Settlement)
    requires Observed(s)
    ensures Observed(Conclude(s, t, o))
  {
  }

  lemma ConcludeIsSafe(c: nat, s: State, t: Ticket, o: Settlement)
    requires Safe(c, s) && t in s.active
    ensures Safe(c, Conclude(s, t, o))
  {
    ConcludeConserves(c, s, t, o);
    ConcludeKeepsTheMap(s, t, o);
    ConcludeIsObserved(s, t, o);
  }

  lemma MovingKeepsTheMap(s: State, s': State, t: Ticket)
    requires Mapped(s) && t in s.pending
    requires s'.jobs == s.jobs && s'.issued == s.issued && s'.orphans == s.orphans
    requires s'.active == s.active + {t}
    requires forall u :: u in s'.pending <==> u in s.pending && u != t
    ensures Mapped(s') && IsMapped(s, t)
  {
    forall id | id in s'.jobs ensures Holds(s', id, s'.jobs[id]) { assert Holds(s, id, s.jobs[id]); }
    forall u | u in s'.pending || (u in s'.active && u !in s'.orphans) ensures IsMapped(s', u) { assert IsMapped(s, u); }
  }

  lemma MovingConserves(c: nat, s: State, s': State, t: Ticket)
    requires Conserved(s) && Bounded(c, s) && t in s.pending && Distinct(s'.pending)
    requires s'.issued == s.issued && s'.settled == s.settled && s'.active == s.active + {t}
    requires forall u :: u in s'.pending <==> u in s.pending && u != t
    requires |s.active| < c && (forall u :: u in s.active ==> !Exclusive(s, u)) && (Exclusive(s, t) ==> s.active == {})
    ensures Conserved(s') && Bounded(c, s')
  {
    assert |s'.active| == |s.active| + 1;
  }

  lemma MovingIsObserved(s: State, s': State, t: Ticket)
    requires Observed(s) && Mapped(s) && t in s.pending && s'.jobs == s.jobs
    requires t < |s.issued| && s'.view == s.view[s.issued[t].id := Running]
    requires forall u :: u in s'.pending <==> u in s.pending && u != t
    ensures Observed(s')
  {
    assert IsMapped(s, t);
    forall id | id in s'.jobs ensures s'.view[id] == if s'.jobs[id] in s'.pending then Queued else Running {
      assert Holds(s, id, s.jobs[id]);
    }
  }

  lemma StartIsSafe(c: nat, s: State)
    requires Safe(c, s) && Enabled(c, s, Start(None))
    ensures Safe(c, Apply(c, s, Start(None)))
    ensures s.pending[Next(s.pending, s.manual)] in Apply(c, s, Start(None)).active
  {
    var i := Next(s.pending, s.manual);
    var t := s.pending[i];
    var s' := Apply(c, s, Start(None));
    assert t in s.pending;
    RemoveAtKeepsTheRest(s.pending, i);
    MovingConserves(c, s, s', t);
    MovingKeepsTheMap(s, s', t);
    MovingIsObserved(s, s', t);
  }

  lemma AddingKeepsTheMap(s: State, s': State, id: string, job: Job)
    requires Mapped(s) && Conserved(s) && id !in s.jobs && job.id == id
    requires s'.jobs == s.jobs[id := |s.issued|] && s'.issued == s.issued + [job] && s'.orphans == s.orphans
    requires s'.active == s.active && s'.pending == s.pending + [|s.issued|]
    ensures Mapped(s')
  {
    assert forall u :: u in s'.pending <==> u in s.pending || u == |s.issued|;
    forall i | i in s'.jobs && i != id ensures Holds(s', i, s'.jobs[i]) { assert Holds(s, i, s.jobs[i]); }
    forall u | u in s.pending || (u in s.active && u !in s.orphans) ensures IsMapped(s', u) { assert IsMapped(s, u); }
    assert |s.issued| !in s.orphans;
  }

  lemma AddingConserves(s: State, s': State, job: Job)
    requires Conserved(s) && s'.issued == s.issued + [job]
    requires s'.active == s.active && s'.pending == s.pending + [|s.issued|] && s'.settled == s.settled
    ensures Conserved(s')
  {
    assert forall u :: u in s'.pending <==> u in s.pending || u == |s.issued|;
    assert |s.issued| !in s.pending;
  }

  lemma AddingIsObserved(s: State, s': State, id: string)
    requires Observed(s) && Mapped(s) && Conserved(s) && id !in s.jobs
    requires s'.jobs == s.jobs[id := |s.issued|] && s'.view == s.view[id := Queued]
    requires s'.pending == s.pending + [|s.issued|]
    ensures Observed(s')
  {
    assert |s.issued| in s'.pending;
    forall i | i in s.jobs ensures s.jobs[i] in s.pending <==> s'.jobs[i] in s'.pending {
      assert Holds(s, i, s.jobs[i]);
    }
  }

  lemma AddingIsBounded(c: nat, s: State, s': State, job: Job)
    requires Conserved(s) && Bounded(c, s) && s'.active == s.active && s'.issued == s.issued + [job]
    ensures Bounded(c, s')
  {
    assert forall u :: u in s.active ==> (Exclusive(s', u) <==> Exclusive(s, u));
  }

  lemma EnqueueIsSafe(c: nat, s: State, id: string, exclusive: bool, manual: bool)
    requires Safe(c, s)
    ensures Safe(c, Apply(c, s, Enqueue(id, exclusive, manual)))
  {
    var s' := Apply(c, s, Enqueue(id, exclusive, manual));
    if id !in s.jobs {
      AddingKeepsTheMap(s, s', id, Job(id, exclusive));
      AddingConserves(s, s', Job(id, exclusive));
      AddingIsBounded(c, s, s', Job(id, exclusive));
      AddingIsObserved(s, s', id);
    }
  }

  lemma ResetIsSafe(c: nat, s: State)
    requires Safe(c, s)
    ensures Safe(c, Apply(c, s, Reset))
  {
    var s' := Apply(c, s, Reset);
    assert Conserved(s');
    assert Mapped(s');
  }

  lemma StepIsSafe(c: nat, s: State, e: Event)
    requires Safe(c, s) && Enabled(c, s, e)
    ensures Safe(c, Apply(c, s, e))
  {
    match e {
      case Enqueue(id, exclusive, manual) => EnqueueIsSafe(c, s, id, exclusive, manual);
      case Start(atOnce) =>
        StartIsSafe(c, s);
        if atOnce.Some? {
          ConcludeIsSafe(c, Apply(c, s, Start(None)), s.pending[Next(s.pending, s.manual)], atOnce.value);
        }
      case Finish(t, o) => ConcludeIsSafe(c, s, t, o);
      case Reset => ResetIsSafe(c, s);
    }
  }

  /** Every reachable state is safe, whatever the interleaving. */
  lemma {:induction false} EveryRunIsSafe(c: nat, s: State, es: seq<Event>)
    requires Safe(c, s) && Legal(c, s, es)
    ensures Safe(c, Run(c, s, es))
  {
    if es != [] {
      EveryRunIsSafe(c, s, es[..|es| - 1]);
      StepIsSafe(c, Run(c, s, es[..|es| - 1]), es[|es| - 1]);
    }
  }

  // ---- Promises and resets ---------------------------------------------------

  lemma StepKeepsSettlements(c: nat, s: State, e: Event, t: Ticket)
    requires Safe(c, s) && Enabled(c, s, e) && t in s.settled
    ensures t in Apply(c, s, e).settled && Apply(c, s, e).settled[t] == s.settled[t]
  {
    if e.Start? {
      assert s.pending[Next(s.pending, s.manual)] in s.pending;
    }
  }

  /** A promise settles once: its settlement is never overwritten. */
  lemma {:induction false} SettledForGood(c: nat, s: State, es: seq<Event>, t: Ticket)
    requires Safe(c, s) && Legal(c, s, es) && t in s.settled
    ensures t in Run(c, s, es).settled && Run(c, s, es).settled[t] == s.settled[t]
  {
    if es != [] {
      SettledForGood(c, s, es[..|es| - 1], t);
      EveryRunIsSafe(c, s, es[..|es| - 1]);
      StepKeepsSettlements(c, Run(c, s, es[..|es| - 1]), es[|es| - 1], t);
    }
  }

  lemma StepKeepsOrphans(c: nat, s: State, e: Event, t: Ticket)
    requires Enabled(c, s, e) && (t in s.orphans || (t in s.active && e == Reset))
    ensures t in Apply(c, s, e).orphans
  {
  }

  lemma {:induction false} OrphansStay(c: nat, s: State, es: seq<Event>, t: Ticket)
    requires Legal(c, s, es) && (t in s.orphans || (t in s.active && es != [] && es[0] == Reset))
    ensures t in Run(c, s, es).orphans
  {
    if es != [] {
      var before := es[..|es| - 1];
      if |es| > 1 {
        assert before[0] == es[0];
        OrphansStay(c, s, before, t);
      }
      StepKeepsOrphans(c, Run(c, s, before), es[|es| - 1], t);
    }
  }

  lemma OrphansOwnNothing(c: nat, s: State, t: Ticket)
    requires Safe(c, s) && t in s.orphans
    ensures !IsMapped(s, t)
    ensures forall o :: Conclude(s, t, o).jobs == s.jobs && Conclude(s, t, o).view == s.view
  {
    assert IsMapped(s, t) ==> Holds(s, s.issued[t].id, t);
  }

  /**
   * A job a reset left running is never current again, and its completion
   * neither removes nor renotifies whatever job has taken its id since.
   */
  lemma OrphansNeverReturn(c: nat, s: State, es: seq<Event>, t: Ticket)
    requires Safe(c, s) && Legal(c, s, es) && (t in s.orphans || (t in s.active && es != [] && es[0] == Reset))
    ensures t in Run(c, s, es).orphans && !IsMapped(Run(c, s, es), t)
    ensures forall o ::
              && Conclude(Run(c, s, es), t, o).jobs == Run(c, s, es).jobs
              && Conclude(Run(c, s, es), t, o).view == Run(c, s, es).view
  {
    EveryRunIsSafe(c, s, es);
    OrphansStay(c, s, es, t);
    OrphansOwnNothing(c, Run(c, s, es), t);
  }

  // ---- Fairness --------------------------------------------------------------

  function Starts(es: seq<Event>): nat {
    if es == [] then 0 else Starts(es[..|es| - 1]) + if es[|es| - 1].Start? then 1 else 0
  }

  function Finishes(es: seq<Event>): nat {
    if es == [] then 0 else Finishes(es[..|es| - 1]) + if es[|es| - 1].Finish? then 1 else 0
  }

  /** What still stands between a waiting job and its start. */
  function Potential(c: nat, s: State, t: Ticket): nat {
    IndexOf(s.pending, t) * c + |s.active|
  }

  lemma StartMovesForward(c: nat, s: State, atOnce: Option<Settlement>, t: Ticket)
    requires Safe(c, s) && Enabled(c, s, Start(atOnce)) && t in Apply(c, s, Start(atOnce)).pending
    ensures t in s.pending
    ensures t in s.manual ==> t in Apply(c, s, Start(atOnce)).manual
    ensures t in s.manual ==> IndexOf(Apply(c, s, Start(atOnce)).pending, t) + 1 == IndexOf(s.pending, t)
    ensures |Apply(c, s, Start(atOnce)).active| <= |s.active| + 1
  {
    var i := Next(s.pending, s.manual);
    var s' := Apply(c, s, Start(atOnce));
    assert s'.pending == RemoveAt(s.pending, i) && s'.manual == s.manual;
    RemoveAtKeepsTheRest(s.pending, i);
    if t in s.manual {
      assert s.pending[IndexOf(s.pending, t)] == t;
      RemovingAnEarlierItem(s.pending, i, t);
    }
    assert s'.active <= s.active + {s.pending[i]};
  }

  lemma StepTowardsStart(c: nat, s: State, e: Event, t: Ticket)
    requires Safe(c, s) && Enabled(c, s, e) && e != Reset
    requires t < |s.issued| && t in Apply(c, s, e).pending
    ensures t in s.pending
    ensures t in s.manual ==> t in Apply(c, s, e).manual
    ensures t in s.manual ==>
      IndexOf(Apply(c, s, e).pending, t) + (if e.Start? then 1 else 0) == IndexOf(s.pending, t)
    ensures |Apply(c, s, e).active| + (if e.Finish? then 1 else 0) <= |s.active| + (if e.Start? then 1 else 0)
  {
    if e.Start? {
      StartMovesForward(c, s, e.atOnce, t);
    } else if e.Enqueue? && e.id !in s.jobs {
      assert (s.pending + [|s.issued|])[IndexOf(s.pending, t)] == t;
    }
  }

  /**
   * A manual job at position p is overtaken by at most p starts: while it
   * waits, every start moves it exactly one place forward.
   */
  lemma {:induction false} OvertakenOncePerPlace(c: nat, s: State, es: seq<Event>, t: Ticket)
    requires Safe(c, s) && Legal(c, s, es) && Reset !in es
    requires t in s.pending && t in s.manual && t in Run(c, s, es).pending
    ensures t in Run(c, s, es).manual
    ensures IndexOf(Run(c, s, es).pending, t) + Starts(es) == IndexOf(s.pending, t)
  {
    if es != [] {
      var before := es[..|es| - 1];
      EveryRunIsSafe(c, s, before);
      IssuedOnlyGrows(c, s, before);
      StepTowardsStart(c, Run(c, s, before), es[|es| - 1], t);
      OvertakenOncePerPlace(c, s, before, t);
    }
  }

  lemma {:induction false} IssuedOnlyGrows(c: nat, s: State, es: seq<Event>)
    requires Legal(c, s, es)
    ensures |s.issued| <= |Run(c, s, es).issued|
  {
    if es != [] { IssuedOnlyGrows(c, s, es[..|es| - 1]); }
  }

  lemma StepLowersPotential(c: nat, s: State, e: Event, t: Ticket)
    requires Safe(c, s) && Enabled(c, s, e) && e != Reset
    requires t in s.pending && t in s.manual && t in Apply(c, s, e).pending
    ensures Potential(c, Apply(c, s, e), t) + (if e.Finish? then 1 else 0) <= Potential(c, s, t)
  {
    StepTowardsStart(c, s, e, t);
    Descent(c, IndexOf(s.pending, t), IndexOf(Apply(c, s, e).pending, t), |s.active|, |Apply(c, s, e).active|,
            if e.Start? then 1 else 0, if e.Finish? then 1 else 0);
  }

  lemma Descent(c: nat, k: nat, k': nat, a: nat, a': nat, started: nat, finished: nat)
    requires k' + started == k && started <= 1 && started <= c && a' + finished <= a + started
    ensures k' * c + a' + finished <= k * c + a
  {
    if started == 1 { assert k * c == k' * c + c; }
  }

  /**
   * Each completion brings a waiting manual job closer to its start, so it
   * starts before position * concurrency + |active| further completions.
   */
  lemma {:induction false} CompletionsAreBounded(c: nat, s: State, es: seq<Event>, t: Ticket)
    requires Safe(c, s) && Legal(c, s, es) && Reset !in es
    requires t in s.pending && t in s.manual && t in Run(c, s, es).pending
    ensures Finishes(es) + Potential(c, Run(c, s, es), t) <= Potential(c, s, t)
  {
    if es != [] {
      var before := es[..|es| - 1];
      EveryRunIsSafe(c, s, before);
      IssuedOnlyGrows(c, s, before);
      StepTowardsStart(c, Run(c, s, before), es[|es| - 1], t);
      OvertakenOncePerPlace(c, s, before, t);
      CompletionsAreBounded(c, s, before, t);
      StepLowersPotential(c, Run(c, s, before), es[|es| - 1], t);
    }
  }
}
