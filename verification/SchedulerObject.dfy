/**
 * The closure returned by `createAccountRefreshScheduler`, as a class. Its ghost
 * `log` is the run of the machine it has performed, so every theorem about runs
 * of RefreshScheduler is a theorem about this object.
 */
module SchedulerObject {
  import opened Lists
  import opened RefreshScheduler

  const DEFAULT_CONCURRENCY: real := 4.0

  datatype Priority = Manual | Background

  /**
   * What the callbacks of a job do when it starts: `current` says no, or `run`
   * (or `current`) throws before it first suspends, or `run` returns a promise.
   */
  datatype AtStart = NotCurrent | Throws | Suspends

  lemma Extend(c: nat, s: State, es: seq<Event>, e: Event)
    requires Legal(c, s, es) && Enabled(c, Run(c, s, es), e)
    ensures Legal(c, s, es + [e]) && Run(c, s, es + [e]) == Apply(c, Run(c, s, es), e)
  {
    assert (es + [e])[..|es + [e]| - 1] == es;
  }

  ghost predicate OnlyStarts(es: seq<Event>) {
    forall k :: 0 <= k < |es| ==> es[k].Start?
  }

  /** `after` continues `before`, then does `es`, then only starts jobs. */
  ghost predicate Continues(before: seq<Event>, es: seq<Event>, after: seq<Event>) {
    && |before| + |es| <= |after|
    && after[..|before| + |es|] == before + es
    && OnlyStarts(after[|before| + |es|..])
  }

  lemma OneMoreStart(before: seq<Event>, es: seq<Event>, mid: seq<Event>, after: seq<Event>)
    requires Continues(before, es, mid)
    requires |after| == |mid| + 1 && after[..|mid|] == mid && after[|mid|].Start?
    ensures Continues(before, es, after)
  {
    var n := |before| + |es|;
    assert after[..n] == mid[..n];
    assert after[n..] == mid[n..] + [after[|mid|]];
  }

  /** Starts after an event: the event, then starts. */
  lemma StartsFollow(before: seq<Event>, e: Event, after: seq<Event>)
    requires Continues(before + [e], [], after)
    ensures Continues(before, [e], after)
  {
    assert after[..|before| + 1] == (before + [e]) + [];
  }

  /** No promise in `before` is settled anew. */
  ghost predicate Keeps(before: map<Ticket, Settlement>, after: map<Ticket, Settlement>) {
    forall t :: t in before ==> t in after && after[t] == before[t]
  }

  /** How a job ends at once, if it does. */
  function Ending(a: AtStart): (r: Option<Settlement>)
    ensures r.None? <==> a == Suspends
    ensures r == Some(Rejected) <==> a == Throws
  {
    match a
    case NotCurrent => Some(Resolved)
    case Throws => Some(Rejected)
    case Suspends => None
  }

  lemma StartKeepsSettlements(c: nat, s: State, e: Event)
    requires Safe(c, s) && Enabled(c, s, e)
    ensures Keeps(s.settled, Apply(c, s, e).settled)
  {
    forall t | t in s.settled ensures t in Apply(c, s, e).settled && Apply(c, s, e).settled[t] == s.settled[t] {
      StepKeepsSettlements(c, s, e, t);
    }
  }

  /** A job that ends at once leaves no trace in the view, whether it was announced as running or not. */
  lemma EndsAtOnce(c: nat, s: State, t: Ticket, o: Settlement)
    requires Enabled(c, s, Start(Some(o))) && t == s.pending[Next(s.pending, s.manual)] && IsMapped(s, t)
    ensures var u := s.(pending := RemoveAt(s.pending, Next(s.pending, s.manual)), active := s.active + {t});
      && Apply(c, s, Start(Some(o))) == RefreshScheduler.Conclude(u, t, o)
      && Apply(c, s, Start(Some(o))) == RefreshScheduler.Conclude(u.(view := u.view[u.issued[t].id := Running]), t, o)
  {
    var id := s.issued[t].id;
    assert s.view[id := Running] - {id} == s.view - {id};
  }

  /** `concurrency` is checked as the source does: an integer of at least 1. */
  method CreateScheduler(callbacks: Ticket -> AtStart, concurrency: real := DEFAULT_CONCURRENCY)
    returns (r: Option<Scheduler>)
    ensures r.Some? <==> concurrency == concurrency.Floor as real && concurrency >= 1.0
    ensures r.Some? ==> fresh(r.value) && r.value.Valid() && r.value.AtRest() && r.value.log == []
    ensures r.Some? ==> r.value.concurrency as real == concurrency && r.value.callbacks == callbacks
  {
    if concurrency != concurrency.Floor as real || concurrency < 1.0 {
      return None;
    }
    var scheduler := new Scheduler(concurrency.Floor, callbacks);
    return Some(scheduler);
  }

  class Scheduler {
    const concurrency: nat
    // What the callbacks of each job do at its start, whatever that is.
    const callbacks: Ticket -> AtStart
    var jobs: map<string, Ticket>
    var pending: seq<Ticket>
    var active: set<Ticket>
    var draining: bool
    // The job records and their promises, by ticket.
    var issued: seq<Job>
    var manual: set<Ticket>
    var settled: map<Ticket, Settlement>
    // The last `changed` notification of each id.
    var view: map<string, Phase>
    ghost var orphans: set<Ticket>
    ghost var log: seq<Event>

    function Now(): State
      reads this
    {
      State(jobs, pending, active, issued, manual, settled, view, {})
    }

    ghost function Here(): State
      reads this
    {
      Now().(orphans := orphans)
    }

    ghost predicate Valid()
      reads this
    {
      && concurrency >= 1
      && Legal(concurrency, Init, log)
      && Run(concurrency, Init, log) == Here()
    }

    /** What EveryRunIsSafe says of this object, at every point where a caller can look. */
    lemma ValidIsSafe()
      requires Valid()
      ensures Safe(concurrency, Here())
    {
      EveryRunIsSafe(concurrency, Init, log);
    }

    /** Between calls `drain` is not running and has left nothing it could start. */
    ghost predicate AtRest()
      reads this
    {
      !draining && Blocked(concurrency, Here()) && (pending != [] ==> active != {})
    }

    /** Place k holds the first manual job of the queue, or k is 0 and no job of it is manual. */
    ghost predicate IsFirstInTurn(k: nat)
      reads this
    {
      && k < |pending|
      && (pending[k] in manual || k == 0)
      && (forall j :: 0 <= j < |pending| && pending[j] in manual ==> k <= j && pending[k] in manual)
    }

    /** At rest the pool is full or fenced, or the job whose turn it is waits for the pool to empty. */
    lemma RestsOnlyWhenItMust()
      requires Valid() && AtRest() && pending != [] && |active| < concurrency
      requires forall t :: t in active && t < |issued| ==> !issued[t].exclusive
      ensures active != {}
      ensures exists k :: 0 <= k < |pending| && IsFirstInTurn(k) && pending[k] < |issued| && issued[pending[k]].exclusive
    {
      ValidIsSafe();
      var k := Next(pending, manual);
      assert pending[k] in Here().pending;
    }

    constructor (concurrency: nat, callbacks: Ticket -> AtStart)
      requires concurrency >= 1
      ensures Valid() && AtRest() && log == [] && this.concurrency == concurrency && this.callbacks == callbacks
    {
      this.concurrency, this.callbacks := concurrency, callbacks;
      jobs, pending, active, draining := map[], [], {}, false;
      issued, manual, settled, view, orphans, log := [], {}, map[], map[], {}, [];
    }

    /** A new job, or the promise of the one already there, promoted unless the caller is background. */
    method Enqueue(id: string, exclusive: Option<bool>, priority: Option<Priority>) returns (promise: Ticket)
      requires Valid() && AtRest()
      modifies this
      ensures Valid() && AtRest()
      ensures Continues(old(log), [Event.Enqueue(id, exclusive != Some(false), priority != Some(Background))], log)
      ensures promise == if id in old(jobs) then old(jobs)[id] else |old(issued)|
      ensures issued == if id in old(jobs) then old(issued) else old(issued) + [Job(id, exclusive != Some(false))]
      ensures manual == old(manual) + if priority != Some(Background) then {promise} else {}
      ensures Keeps(old(settled), settled)
    {
      promise := Ask(id, exclusive != Some(false), priority != Some(Background));
      Drain();
      StartsFollow(old(log), Event.Enqueue(id, exclusive != Some(false), priority != Some(Background)), log);
    }

    /** The part of enqueue before it drains. */
    method Ask(id: string, exclusive: bool, asManual: bool) returns (promise: Ticket)
      requires Valid()
      modifies this`issued, this`manual, this`jobs, this`pending, this`view, this`log
      ensures Valid() && log == old(log) + [Event.Enqueue(id, exclusive, asManual)]
      ensures promise == if id in old(jobs) then old(jobs)[id] else |old(issued)|
      ensures issued == if id in old(jobs) then old(issued) else old(issued) + [Job(id, exclusive)]
      ensures manual == old(manual) + if asManual then {promise} else {}
    {
      if id in jobs {
        promise := jobs[id];
        Join(id, exclusive, asManual);
      } else {
        promise := |issued|;
        Submit(id, exclusive, asManual);
      }
    }

    method Join(id: string, exclusive: bool, promote: bool)
      requires Valid() && id in jobs
      modifies this`manual, this`log
      ensures Valid() && log == old(log) + [Event.Enqueue(id, exclusive, promote)]
      ensures manual == old(manual) + if promote then {jobs[id]} else {}
    {
      Extend(concurrency, Init, log, Event.Enqueue(id, exclusive, promote));
      if promote {
        manual := manual + {jobs[id]};
      }
      log := log + [Event.Enqueue(id, exclusive, promote)];
    }

    method Submit(id: string, exclusive: bool, asManual: bool)
      requires Valid() && id !in jobs
      modifies this`issued, this`manual, this`jobs, this`pending, this`view, this`log
      ensures Valid() && log == old(log) + [Event.Enqueue(id, exclusive, asManual)]
      ensures issued == old(issued) + [Job(id, exclusive)]
      ensures manual == old(manual) + if asManual then {|old(issued)|} else {}
    {
      Extend(concurrency, Init, log, Event.Enqueue(id, exclusive, asManual));
      var job := |issued|;
      issued := issued + [Job(id, exclusive)];
      if asManual {
        manual := manual + {job};
      }
      jobs := jobs[id := job];
      pending := pending + [job];
      view := view[id := Queued];
      log := log + [Event.Enqueue(id, exclusive, asManual)];
    }

    method Drain()
      requires Valid()
      modifies this`jobs, this`pending, this`active, this`settled, this`view, this`draining, this`log
      ensures Valid() && draining == old(draining)
      ensures old(draining) ==> Here() == old(Here()) && log == old(log)
      ensures !old(draining) ==> AtRest() && Continues(old(log), [], log)
      ensures Keeps(old(settled), settled)
      decreases if draining then 0 else 3
    {
      if draining { return; }
      draining := true;
      while pending != [] && |active| < concurrency
        invariant Valid() && draining && Continues(old(log), [], log) && Keeps(old(settled), settled)
        decreases |pending|
      {
        if exists t :: t in active && Exclusive(Now(), t) { break; }
        var index := Next(pending, manual);
        if Exclusive(Now(), pending[index]) && active != {} { break; }
        ghost var mid := log;
        StartNext(index);
        OneMoreStart(old(log), [], mid, log);
      }
      draining := false;
    }

    method StartNext(index: nat)
      requires Valid() && draining && !Blocked(concurrency, Here()) && index == Next(pending, manual)
      modifies this`jobs, this`pending, this`active, this`settled, this`view, this`draining, this`log
      ensures Valid() && draining && |pending| < |old(pending)|
      ensures log == old(log) + [Start(Ending(callbacks(old(pending)[index])))]
      ensures Keeps(old(settled), settled)
      decreases 2, 1
    {
      ghost var before := Here();
      ValidIsSafe();
      var job := pending[index];
      assert job in before.pending;
      pending := RemoveAt(pending, index);
      active := active + {job};
      Execute(job, before);
      StartKeepsSettlements(concurrency, before, Start(Ending(callbacks(job))));
    }

    /** `execute` up to where it first suspends; a job that is not current never runs. */
    method Execute(job: Ticket, ghost before: State)
      requires draining && concurrency >= 1
      requires Legal(concurrency, Init, log) && Run(concurrency, Init, log) == before && IsMapped(before, job)
      requires Enabled(concurrency, before, Start(None)) && job == before.pending[Next(before.pending, before.manual)]
      requires Here() == before.(pending := RemoveAt(before.pending, Next(before.pending, before.manual)),
                                 active := before.active + {job})
      modifies this`jobs, this`pending, this`active, this`settled, this`view, this`draining, this`log
      ensures Valid() && draining
      ensures log == old(log) + [Start(Ending(callbacks(job)))]
      ensures Here() == Apply(concurrency, before, Start(Ending(callbacks(job))))
      decreases 2, 0
    {
      var outcome := Resolved;
      if issued[job].id in jobs && jobs[issued[job].id] == job && callbacks(job) != NotCurrent {
        view := view[issued[job].id := Running];
        if callbacks(job) == Suspends {
          Extend(concurrency, Init, log, Start(None));
          log := log + [Start(None)];
          return;
        }
        outcome := Rejected;
      }
      ghost var e := Start(Some(outcome));
      EndsAtOnce(concurrency, before, job, outcome);
      Extend(concurrency, Init, log, e);
      Conclude(job, outcome, e);
    }

    /** The end of `execute`: settle, release the slot, clear the id if it is still this job's. */
    method Conclude(job: Ticket, outcome: Settlement, ghost e: Event)
      requires concurrency >= 1 && Legal(concurrency, Init, log + [e])
      requires Run(concurrency, Init, log + [e]) == RefreshScheduler.Conclude(Here(), job, outcome)
      requires job < |issued|
      modifies this`jobs, this`pending, this`active, this`settled, this`view, this`draining, this`log
      ensures Valid() && draining == old(draining)
      ensures old(draining) ==> log == old(log) + [e] && Here() == RefreshScheduler.Conclude(old(Here()), job, outcome)
      ensures !old(draining) ==> AtRest() && Continues(old(log), [e], log)
      ensures !old(draining) ==> Keeps(old(settled)[job := outcome], settled)
      decreases if draining then 1 else 4
    {
      Release(job, outcome, e);
      Drain();
      if !old(draining) { StartsFollow(old(log), e, log); }
    }

    method Release(job: Ticket, outcome: Settlement, ghost e: Event)
      requires concurrency >= 1 && Legal(concurrency, Init, log + [e])
      requires Run(concurrency, Init, log + [e]) == RefreshScheduler.Conclude(Here(), job, outcome)
      requires job < |issued|
      modifies this`settled, this`active, this`jobs, this`view, this`log
      ensures Valid() && log == old(log) + [e] && Here() == RefreshScheduler.Conclude(old(Here()), job, outcome)
      ensures settled == old(settled)[job := outcome]
    {
      settled := settled[job := outcome];
      active := active - {job};
      var id := issued[job].id;
      if id in jobs && jobs[id] == job {
        jobs := jobs - {id};
        view := view - {id};
      }
      log := log + [e];
    }

    /** The promise returned by `run` settles: the rest of `execute` runs. */
    method Finish(job: Ticket, outcome: Settlement)
      requires Valid() && AtRest() && job in active
      modifies this`jobs, this`pending, this`active, this`settled, this`view, this`draining, this`log
      ensures Valid() && AtRest()
      ensures Continues(old(log), [Event.Finish(job, outcome)], log)
      ensures job in settled && settled[job] == outcome && job !in active
      ensures Keeps(old(settled), settled)
    {
      Extend(concurrency, Init, log, Event.Finish(job, outcome));
      ValidIsSafe();
      assert Keeps(settled, settled[job := outcome]);
      Conclude(job, outcome, Event.Finish(job, outcome));
      ValidIsSafe();
    }

    /** `changed(id, null)` for every id in the map. */
    method AnnounceReset()
      modifies `view
      ensures view == old(view) - jobs.Keys
    {
      var ids := jobs.Keys;
      while ids != {}
        invariant ids <= jobs.Keys
        invariant view == old(view) - (jobs.Keys - ids)
      {
        var id :| id in ids;
        view := view - {id};
        ids := ids - {id};
      }
    }

    /** Empty the queue, resolving every promise in it. */
    method ResolvePending()
      modifies `pending, `settled
      ensures pending == []
      ensures settled == old(settled) + map t | t in old(pending) :: Resolved
    {
      var dropped := pending;
      pending := [];
      for k := 0 to |dropped|
        modifies `settled
        invariant forall t :: t in settled <==> t in old(settled) || t in dropped[..k]
        invariant forall t :: t in settled ==> settled[t] == if t in dropped[..k] then Resolved else old(settled)[t]
      {
        assert dropped[..k + 1] == dropped[..k] + [dropped[k]];
        settled := settled[dropped[k] := Resolved];
      }
      assert dropped[..|dropped|] == dropped;
      assert settled == old(settled) + map t | t in dropped :: Resolved;
    }

    /** Forget every job. Running ones keep their slots but no longer own their ids. */
    method Reset()
      requires Valid() && AtRest()
      modifies this`jobs, this`pending, this`settled, this`view, this`orphans, this`log
      ensures Valid() && AtRest()
      ensures log == old(log) + [Event.Reset]
      ensures jobs == map[] && pending == [] && view == map[]
      ensures Keeps(old(settled), settled)
      ensures forall t :: t in old(pending) ==> t in settled && settled[t] == Resolved
    {
      ValidIsSafe();
      Extend(concurrency, Init, log, Event.Reset);
      AnnounceReset();
      jobs := map[];
      ResolvePending();
      orphans := orphans + active;
      log := log + [Event.Reset];
    }
  }
}
