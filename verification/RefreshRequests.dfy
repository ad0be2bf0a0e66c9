/**
 * What the scheduler makes of what it is asked, over whole runs: each job is the
 * one its creating call asked for, an exclusive one runs alone, a job is manual
 * exactly when some call asked for that, and jobs of a kind start in order.
 */
module RefreshRequests {
  import opened Lists
  import opened RefreshScheduler

  lemma {:induction false} PrefixIsLegal(c: nat, s: State, es: seq<Event>, k: nat)
    requires Legal(c, s, es) && k <= |es|
    ensures Legal(c, s, es[..k])
  {
    if k == |es| {
      assert es[..k] == es;
    } else {
      assert es[..|es| - 1][..k] == es[..k];
      PrefixIsLegal(c, s, es[..|es| - 1], k);
    }
  }

  lemma StepKeepsIssued(c: nat, s: State, e: Event)
    requires Enabled(c, s, e)
    ensures s.issued <= Apply(c, s, e).issued
  {
  }

  lemma {:induction false} IssuedIsKept(c: nat, s: State, es: seq<Event>, k: nat)
    requires Legal(c, s, es) && k <= |es|
    ensures Legal(c, s, es[..k]) && Run(c, s, es[..k]).issued <= Run(c, s, es).issued
  {
    PrefixIsLegal(c, s, es, k);
    if k == |es| {
      assert es[..k] == es;
    } else {
      assert es[..|es| - 1][..k] == es[..k];
      IssuedIsKept(c, s, es[..|es| - 1], k);
      StepKeepsIssued(c, Run(c, s, es[..|es| - 1]), es[|es| - 1]);
    }
  }

  /** The call at k creates a job: no job of its id is known. */
  ghost predicate Creates(c: nat, es: seq<Event>, k: nat)
    requires Legal(c, Init, es) && k < |es|
  {
    PrefixIsLegal(c, Init, es, k);
    es[k].Enqueue? && es[k].id !in Run(c, Init, es[..k]).jobs
  }

  /** The ticket of the job the call at k creates. */
  ghost function Created(c: nat, es: seq<Event>, k: nat): Ticket
    requires Legal(c, Init, es) && k < |es| && Creates(c, es, k)
  {
    PrefixIsLegal(c, Init, es, k);
    |Run(c, Init, es[..k]).issued|
  }

  /** A job is for ever the one its creating call asked for. */
  lemma CreatedAsAsked(c: nat, es: seq<Event>, k: nat)
    requires Legal(c, Init, es) && k < |es| && Creates(c, es, k)
    ensures var t := Created(c, es, k);
      t < |Run(c, Init, es).issued| && Run(c, Init, es).issued[t] == Job(es[k].id, es[k].exclusive)
  {
    PrefixIsLegal(c, Init, es, k);
    IssuedIsKept(c, Init, es, k + 1);
    assert es[..k + 1][..k] == es[..k];
    var before, after := Run(c, Init, es[..k]), Run(c, Init, es[..k + 1]);
    assert after == Apply(c, before, es[k]);
    assert after.issued[|before.issued|] == Job(es[k].id, es[k].exclusive);
  }

  /** While a job whose creating call asked for exclusivity is active, nothing else is. */
  lemma ExclusiveRunsAlone(c: nat, es: seq<Event>, k: nat)
    requires Legal(c, Init, es) && k < |es| && Creates(c, es, k) && es[k].exclusive
    ensures Created(c, es, k) in Run(c, Init, es).active ==> Run(c, Init, es).active == {Created(c, es, k)}
  {
    CreatedAsAsked(c, es, k);
    EveryRunIsSafe(c, Init, es);
    var s, t := Run(c, Init, es), Created(c, es, k);
    if t in s.active {
      assert Exclusive(s, t);
      assert forall u :: u in s.active ==> u == t;
    }
  }

  /** The ticket a call is answered with. */
  function Answered(s: State, e: Event): Ticket
    requires e.Enqueue?
  {
    if e.id in s.jobs then s.jobs[e.id] else |s.issued|
  }

  /** Some call that was answered with t asked for a manual job. */
  predicate AskedManually(c: nat, s: State, es: seq<Event>, t: Ticket)
    requires Legal(c, s, es)
  {
    es != [] &&
    var before, e := es[..|es| - 1], es[|es| - 1];
    AskedManually(c, s, before, t) || (e.Enqueue? && e.manual && Answered(Run(c, s, before), e) == t)
  }

  lemma {:induction false} ManualIsAsked(c: nat, es: seq<Event>, t: Ticket)
    requires Legal(c, Init, es)
    ensures t in Run(c, Init, es).manual <==> AskedManually(c, Init, es, t)
  {
    if es != [] {
      ManualIsAsked(c, es[..|es| - 1], t);
      StepAsksManually(c, Run(c, Init, es[..|es| - 1]), es[|es| - 1], t);
    }
  }

  lemma StepAsksManually(c: nat, s: State, e: Event, t: Ticket)
    requires Enabled(c, s, e)
    ensures t in Apply(c, s, e).manual <==> t in s.manual || (e.Enqueue? && e.manual && Answered(s, e) == t)
  {
  }

  // ---- Order -----------------------------------------------------------------

  lemma {:induction false} PendingAscends(c: nat, es: seq<Event>)
    requires Legal(c, Init, es)
    ensures Ascending(Run(c, Init, es).pending)
  {
    if es != [] {
      var before, e := es[..|es| - 1], es[|es| - 1];
      var s := Run(c, Init, before);
      PendingAscends(c, before);
      EveryRunIsSafe(c, Init, before);
      StepAscends(c, s, e);
    }
  }

  lemma StepAscends(c: nat, s: State, e: Event)
    requires Enabled(c, s, e) && Conserved(s) && Ascending(s.pending)
    ensures Ascending(Apply(c, s, e).pending)
  {
    if e.Start? {
      AscendingWithout(s.pending, Next(s.pending, s.manual));
    } else if e.Enqueue? && e.id !in s.jobs {
      assert forall i :: 0 <= i < |s.pending| ==> s.pending[i] in s.pending && s.pending[i] < |s.issued|;
    }
  }

  lemma AscendingWithout(s: seq<nat>, i: nat)
    requires Ascending(s) && i < |s|
    ensures Ascending(RemoveAt(s, i))
  {
  }

  lemma NextOfAscending(pending: seq<Ticket>, manual: set<Ticket>)
    requires pending != [] && Ascending(pending)
    ensures forall u :: u in pending && u in manual ==> pending[Next(pending, manual)] <= u
    ensures forall u :: u in pending && u in manual ==> pending[Next(pending, manual)] in manual
    ensures (forall j :: 0 <= j < |pending| ==> pending[j] !in manual) ==> pending[Next(pending, manual)] == pending[0]
    ensures forall u :: u in pending ==> pending[0] <= u
  {
    var t := pending[Next(pending, manual)];
    forall u | u in pending ensures pending[0] <= u && (u in manual ==> t in manual && t <= u) {
      var j :| 0 <= j < |pending| && pending[j] == u;
    }
  }

  /**
   * A start takes the oldest manual job, or the oldest job if none is manual:
   * `t` is in the queue before and not after, and the others stay.
   */
  lemma StartsTheOldest(c: nat, es: seq<Event>, atOnce: Option<Settlement>) returns (t: Ticket)
    requires Legal(c, Init, es) && Enabled(c, Run(c, Init, es), Start(atOnce))
    ensures t in Run(c, Init, es).pending
    ensures forall u :: u in Apply(c, Run(c, Init, es), Start(atOnce)).pending <==> u in Run(c, Init, es).pending && u != t
    ensures forall u :: u in Run(c, Init, es).pending && u in Run(c, Init, es).manual ==>
      t in Run(c, Init, es).manual && t <= u
    ensures t !in Run(c, Init, es).manual ==> forall u :: u in Run(c, Init, es).pending ==> t <= u
  {
    PendingAscends(c, es);
    EveryRunIsSafe(c, Init, es);
    var s := Run(c, Init, es);
    t := s.pending[Next(s.pending, s.manual)];
    StartTakesTheNext(c, s, atOnce);
    NextOfAscending(s.pending, s.manual);
    if t !in s.manual {
      assert forall j :: 0 <= j < |s.pending| ==> s.pending[j] in s.pending;
    }
  }

  lemma StartTakesTheNext(c: nat, s: State, atOnce: Option<Settlement>)
    requires Conserved(s) && Enabled(c, s, Start(atOnce))
    ensures forall u :: u in Apply(c, s, Start(atOnce)).pending <==>
      u in s.pending && u != s.pending[Next(s.pending, s.manual)]
  {
    RemoveAtKeepsTheRest(s.pending, Next(s.pending, s.manual));
    assert Apply(c, s, Start(atOnce)).pending == RemoveAt(s.pending, Next(s.pending, s.manual));
  }

  // ---- Settlements -------------------------------------------------------------

  /** A completion settles with its outcome, a start that ends at once with its own. */
  lemma SettledAsConcluded(c: nat, s: State, e: Event)
    requires Enabled(c, s, e) && e != Reset
    ensures match e
      case Enqueue(_, _, _) => Apply(c, s, e).settled == s.settled
      case Start(None) => Apply(c, s, e).settled == s.settled
      case Start(Some(o)) => Apply(c, s, e).settled == s.settled[s.pending[Next(s.pending, s.manual)] := o]
      case Finish(job, o) => Apply(c, s, e).settled == s.settled[job := o]
  {
  }

  /** A reset resolves what was waiting and nothing else. */
  lemma ResetResolvesTheQueue(c: nat, s: State, t: Ticket)
    requires Safe(c, s)
    ensures t in Apply(c, s, Reset).settled <==> t in s.settled || t in s.pending
    ensures t in s.pending ==> Apply(c, s, Reset).settled[t] == Resolved
    ensures t in s.settled ==> Apply(c, s, Reset).settled[t] == s.settled[t]
  {
  }
}
