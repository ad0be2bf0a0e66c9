/**
 * The closure returned by `createAccountsAutoRefresh`, as a class. Its ghost
 * `log` is the run of the machine it has performed, so every theorem about runs
 * of AutoRefresh is a theorem about this object.
 */
module AutoRefreshObject {
  import opened Lists
  import opened AutoRefresh

  const DEFAULT_CONCURRENCY: real := 1.0

  lemma Extend(c: nat, es: seq<Event>, e: Event)
    requires Legal(c, Init, es) && Enabled(Run(c, Init, es), e)
    ensures Legal(c, Init, es + [e]) && Run(c, Init, es + [e]) == Apply(c, Run(c, Init, es), e)
  {
    assert (es + [e])[..|es + [e]| - 1] == es;
  }

  lemma Refusal(c: nat, es: seq<Event>, listed: seq<string>, allowed: bool)
    requires Legal(c, Init, es) && (Run(c, Init, es).running.Some? || !allowed)
    ensures Legal(c, Init, es + [Begin(listed, allowed)]) && Run(c, Init, es + [Begin(listed, allowed)]) == Run(c, Init, es)
  {
    Extend(c, es, Begin(listed, allowed));
  }

  /** `after` continues `before`, then only has workers look for an account. */
  ghost predicate ThenLooks(before: seq<Event>, after: seq<Event>) {
    |before| <= |after| && after[..|before|] == before && forall k :: |before| <= k < |after| ==> after[k].Look?
  }

  lemma OneMoreLook(before: seq<Event>, mid: seq<Event>, e: Event)
    requires ThenLooks(before, mid) && e.Look?
    ensures ThenLooks(before, mid + [e])
  {
    assert (mid + [e])[..|before|] == mid[..|before|];
  }

  lemma LooksCompose(before: seq<Event>, mid: seq<Event>, after: seq<Event>)
    requires ThenLooks(before, mid) && ThenLooks(mid, after)
    ensures ThenLooks(before, after)
  {
    assert after[..|before|] == mid[..|before|];
    forall k | |before| <= k < |after| ensures after[k].Look? {
      if k < |mid| { assert after[k] == mid[k]; }
    }
  }

  ghost predicate NoneDue(attempts: map<string, Attempt>, now: nat, ids: seq<string>, from: nat, end: nat,
                          targets: string -> Option<Target>)
  {
    forall k :: from <= k < end && k < |ids| ==> !Due(attempts, now, ids[k], targets(ids[k]))
  }

  lemma OneMoreNotDue(attempts: map<string, Attempt>, now: nat, ids: seq<string>, from: nat, end: nat,
                      targets: string -> Option<Target>)
    requires NoneDue(attempts, now, ids, from, end, targets) && end < |ids| && !Due(attempts, now, ids[end], targets(ids[end]))
    ensures NoneDue(attempts, now, ids, from, end + 1, targets)
  {
  }

  /** The first due id at or after `from`, if any. */
  ghost predicate FirstDue(attempts: map<string, Attempt>, now: nat, ids: seq<string>, from: nat,
                           targets: string -> Option<Target>, found: Option<nat>)
  {
    match found
    case None => NoneDue(attempts, now, ids, from, |ids|, targets)
    case Some(k) => from <= k < |ids| && Due(attempts, now, ids[k], targets(ids[k])) && NoneDue(attempts, now, ids, from, k, targets)
  }

  /** Where the w-th of the turns starts looking: after what the turn before it started, if anything. */
  ghost function From(ids: seq<string>, from: nat, starts: seq<Option<nat>>, w: nat): nat
    requires w <= |starts|
  {
    if w == 0 then from else if starts[w - 1].Some? then starts[w - 1].value + 1 else |ids|
  }

  /** Turn after turn, each starts the first due id no turn before it has passed. */
  ghost predicate InTurns(attempts: map<string, Attempt>, now: nat, ids: seq<string>, from: nat,
                          views: nat -> string -> Option<Target>, starts: seq<Option<nat>>)
  {
    forall w: nat :: w < |starts| ==> TurnAt(attempts, now, ids, from, views, starts, w)
  }

  ghost predicate TurnAt(attempts: map<string, Attempt>, now: nat, ids: seq<string>, from: nat,
                         views: nat -> string -> Option<Target>, starts: seq<Option<nat>>, w: nat)
    requires w < |starts|
  {
    FirstDue(attempts, now, ids, From(ids, from, starts, w), views(w), starts[w])
  }

  /** Two tables have the same attempts of the ids from `from` on. */
  ghost predicate SameFrom(a: map<string, Attempt>, b: map<string, Attempt>, ids: seq<string>, from: nat) {
    forall k :: from <= k < |ids| ==> (ids[k] in a <==> ids[k] in b) && (ids[k] in a ==> a[ids[k]] == b[ids[k]])
  }

  lemma SameFirstDue(a: map<string, Attempt>, b: map<string, Attempt>, now: nat, ids: seq<string>, from: nat,
                     targets: string -> Option<Target>, found: Option<nat>)
    requires SameFrom(a, b, ids, from) && FirstDue(a, now, ids, from, targets, found)
    ensures FirstDue(b, now, ids, from, targets, found)
  {
    forall k | from <= k < |ids| ensures Due(a, now, ids[k], targets(ids[k])) <==> Due(b, now, ids[k], targets(ids[k])) {}
  }

  lemma StillInTurns(a: map<string, Attempt>, b: map<string, Attempt>, now: nat, ids: seq<string>,
                     views: nat -> string -> Option<Target>, starts: seq<Option<nat>>)
    requires SameFrom(a, b, ids, 0) && InTurns(a, now, ids, 0, views, starts)
    ensures InTurns(b, now, ids, 0, views, starts)
  {
    forall w: nat | w < |starts| ensures TurnAt(b, now, ids, 0, views, starts, w) {
      assert TurnAt(a, now, ids, 0, views, starts, w);
      SameFirstDue(a, b, now, ids, From(ids, 0, starts, w), views(w), starts[w]);
    }
  }

  lemma TurnStays(attempts: map<string, Attempt>, now: nat, ids: seq<string>, from: nat,
                  views: nat -> string -> Option<Target>, starts: seq<Option<nat>>, longer: seq<Option<nat>>, w: nat)
    requires w < |starts| && starts <= longer && TurnAt(attempts, now, ids, from, views, starts, w)
    ensures TurnAt(attempts, now, ids, from, views, longer, w)
  {
    assert From(ids, from, longer, w) == From(ids, from, starts, w);
    assert longer[w] == starts[w];
  }

  lemma LastTurn(attempts: map<string, Attempt>, now: nat, ids: seq<string>, from: nat,
                 views: nat -> string -> Option<Target>, starts: seq<Option<nat>>, found: Option<nat>)
    requires FirstDue(attempts, now, ids, From(ids, from, starts, |starts|), views(|starts|), found)
    ensures TurnAt(attempts, now, ids, from, views, starts + [found], |starts|)
  {
    assert From(ids, from, starts + [found], |starts|) == From(ids, from, starts, |starts|);
    assert (starts + [found])[|starts|] == found;
  }

  lemma OneMoreTurn(attempts: map<string, Attempt>, now: nat, ids: seq<string>, from: nat,
                    views: nat -> string -> Option<Target>, starts: seq<Option<nat>>, found: Option<nat>)
    requires InTurns(attempts, now, ids, from, views, starts)
    requires FirstDue(attempts, now, ids, From(ids, from, starts, |starts|), views(|starts|), found)
    ensures InTurns(attempts, now, ids, from, views, starts + [found])
  {
    LastTurn(attempts, now, ids, from, views, starts, found);
    forall w: nat | w < |starts| ensures TurnAt(attempts, now, ids, from, views, starts + [found], w) {
      TurnStays(attempts, now, ids, from, views, starts, starts + [found], w);
    }
  }

  /** `concurrency` is checked as the source does: an integer of at least 1. */
  method CreateAutoRefresh(concurrency: real := DEFAULT_CONCURRENCY) returns (r: Option<Refresher>)
    ensures r.Some? <==> concurrency == concurrency.Floor as real && concurrency >= 1.0
    ensures r.Some? ==> fresh(r.value) && r.value.Valid() && r.value.log == [] && r.value.concurrency as real == concurrency
  {
    if concurrency != concurrency.Floor as real || concurrency < 1.0 {
      return None;
    }
    var refresher := new Refresher(concurrency.Floor);
    return Some(refresher);
  }

  class Refresher {
    const concurrency: nat
    var attempts: map<string, Attempt>
    var generation: nat
    var running: Option<nat>
    // What each call of `run` and its workers hold in their frames.
    var passes: seq<Pass>
    ghost var clock: nat
    ghost var history: seq<Entry>
    ghost var log: seq<Event>

    ghost function Here(): State
      reads this
    {
      State(attempts, generation, running, passes, clock, history)
    }

    ghost predicate Valid()
      reads this
    {
      concurrency >= 1 && Legal(concurrency, Init, log) && Run(concurrency, Init, log) == Here()
    }

    /** What EveryRunIsPaced says of this object. */
    lemma ValidIsPaced()
      requires Valid()
      ensures Inv(concurrency, Here())
    {
      EveryRunIsPaced(concurrency, log);
    }

    constructor (concurrency: nat)
      requires concurrency >= 1
      ensures Valid() && log == [] && this.concurrency == concurrency
    {
      this.concurrency := concurrency;
      attempts, generation, running, passes := map[], 0, None, [];
      clock, history, log := 0, [], [];
    }

    /** Time passes. */
    ghost method Tick(now: nat)
      requires Valid() && clock <= now
      modifies this`clock, this`log
      ensures Valid() && clock == now && log == old(log) + [Advance(now)]
    {
      Extend(concurrency, log, Advance(now));
      clock := now;
      log := log + [Advance(now)];
    }

    /** Forget the attempts of the ids no longer listed. */
    method ForgetUnlisted(ids: seq<string>) returns (ghost dropped: set<string>)
      modifies `attempts
      ensures dropped == set id | id in old(attempts) && id !in ids
      ensures attempts == old(attempts) - dropped
    {
      dropped := {};
      var rest := attempts.Keys;
      while rest != {}
        invariant rest <= old(attempts.Keys) && attempts == old(attempts) - dropped
        invariant dropped == set id | id in old(attempts) && id !in rest && id !in ids
        decreases rest
      {
        var id :| id in rest;
        if id !in ids {
          attempts := attempts - {id};
          dropped := dropped + {id};
        }
        rest := rest - {id};
      }
    }

    /**
     * A call of run: nothing if a pass is running or refreshing is not allowed;
     * otherwise a new pass whose workers look for accounts one after the other.
     * `views` is what the targets say when each of them starts looking.
     */
    method Begin(listed: seq<string>, allowed: bool, now: nat, views: nat -> string -> Option<Target>)
      returns (ghost starts: seq<Option<nat>>)
      requires Valid() && clock == now
      modifies this
      ensures Valid() && ThenLooks(old(log) + [Event.Begin(listed, allowed)], log)
      ensures old(running).Some? || !allowed ==> Here() == old(Here())
      ensures old(running).None? && allowed ==>
        running == Some(|old(passes)|) && |passes| == |old(passes)| + 1 && passes[|old(passes)|].ids == Unique(listed)
        && passes[|old(passes)|].idle == 0
      ensures old(running).None? && allowed ==>
        |starts| == (if concurrency < |Unique(listed)| then concurrency else |Unique(listed)|)
        && InTurns(old(attempts), now, Unique(listed), 0, views, starts)
    {
      starts := [];
      if running.Some? || !allowed {
        Refuse(listed, allowed);
        return;
      }
      starts := StartPass(listed, now, views);
    }

    method StartPass(listed: seq<string>, now: nat, views: nat -> string -> Option<Target>)
      returns (ghost starts: seq<Option<nat>>)
      requires Valid() && clock == now && running.None?
      modifies this`running, this`attempts, this`passes, this`history, this`log
      ensures Valid() && ThenLooks(old(log) + [Event.Begin(listed, true)], log)
      ensures running == Some(|old(passes)|) && |passes| == |old(passes)| + 1
      ensures passes[|old(passes)|].ids == Unique(listed) && passes[|old(passes)|].idle == 0
      ensures |starts| == (if concurrency < |Unique(listed)| then concurrency else |Unique(listed)|)
      ensures InTurns(old(attempts), now, Unique(listed), 0, views, starts)
    {
      var operation := |passes|;
      Open(listed);
      ghost var table := attempts;
      starts := StartWorkers(operation, true, now, views);
      StillInTurns(table, old(attempts), now, Unique(listed), views, starts);
    }

    method Refuse(listed: seq<string>, allowed: bool)
      requires Valid() && (running.Some? || !allowed)
      modifies this`log
      ensures Valid() && log == old(log) + [Event.Begin(listed, allowed)]
    {
      Refusal(concurrency, log, listed, allowed);
      log := log + [Event.Begin(listed, allowed)];
    }

    /** Every worker of a new pass runs until it first suspends. */
    method StartWorkers(p: nat, allowed: bool, now: nat, views: nat -> string -> Option<Target>)
      returns (ghost starts: seq<Option<nat>>)
      requires Valid() && p < |passes| && clock == now
      requires allowed && passes[p].captured == generation && passes[p].cursor == 0 && Distinct(passes[p].ids)
      modifies this`passes, this`attempts, this`history, this`log
      ensures Valid() && ThenLooks(old(log), log)
      ensures |passes| == |old(passes)| && passes[p].ids == old(passes)[p].ids && passes[p].idle == 0
      ensures |starts| == old(passes)[p].idle && InTurns(old(attempts), now, passes[p].ids, 0, views, starts)
    {
      var workers := passes[p].idle;
      starts := [];
      for w := 0 to workers
        invariant Valid() && ThenLooks(old(log), log) && |passes| == |old(passes)|
        invariant passes[p].ids == old(passes)[p].ids && passes[p].idle == workers - w && passes[p].captured == generation
        invariant |starts| == w && InTurns(old(attempts), now, passes[p].ids, 0, views, starts)
        invariant passes[p].cursor == From(passes[p].ids, 0, starts, w) <= |passes[p].ids|
        invariant SameFrom(attempts, old(attempts), passes[p].ids, passes[p].cursor)
      {
        ghost var mid, from, table := log, passes[p].cursor, attempts;
        var started := Turn(p, allowed, now, views(w));
        LooksCompose(old(log), mid, log);
        SameFirstDue(table, old(attempts), now, passes[p].ids, from, views(w), started);
        OneMoreTurn(old(attempts), now, passes[p].ids, 0, views, starts, started);
        starts := starts + [started];
      }
    }

    /** The new pass, before its workers are started. */
    method Open(listed: seq<string>)
      requires Valid() && running.None?
      modifies this`running, this`attempts, this`passes, this`history, this`log
      ensures Valid() && log == old(log) + [Event.Begin(listed, true)]
      ensures running == Some(|old(passes)|) && |passes| == |old(passes)| + 1
      ensures passes[|old(passes)|] == Pass(generation, Unique(listed), 0,
        if concurrency < |Unique(listed)| then concurrency else |Unique(listed)|, map[], false)
      ensures attempts == old(attempts) - set id | id in old(attempts) && id !in listed
    {
      Extend(concurrency, log, Event.Begin(listed, true));
      running := Some(|passes|);
      var ids := Unique(listed);
      ghost var dropped := ForgetUnlisted(ids);
      assert dropped == set id | id in old(attempts) && id !in listed;
      var workers := if concurrency < |ids| then concurrency else |ids|;
      passes := passes + [Pass(generation, ids, 0, workers, map[], false)];
      history := history + [Forgot(dropped)];
      log := log + [Event.Begin(listed, true)];
    }

    /**
     * A worker in its loop, until it starts a refresh or leaves. It starts the
     * first due account no worker of its pass has taken yet.
     */
    method Turn(p: nat, allowed: bool, now: nat, targets: string -> Option<Target>) returns (started: Option<nat>)
      requires Valid() && p < |passes| && passes[p].idle > 0 && clock == now
      modifies this`passes, this`attempts, this`history, this`log
      ensures Valid() && ThenLooks(old(log), log)
      ensures |passes| == |old(passes)| && passes[p].ids == old(passes)[p].ids && passes[p].idle + 1 == old(passes)[p].idle
      ensures passes[p].captured == old(passes)[p].captured && passes[p].ended == old(passes)[p].ended
      ensures forall q: nat :: q < |passes| && q != p ==> passes[q] == old(passes)[q]
      ensures !allowed || old(passes)[p].captured != generation ==> started.None? && passes[p].cursor == old(passes)[p].cursor
      ensures allowed && old(passes)[p].captured == generation ==>
        FirstDue(old(attempts), now, old(passes)[p].ids, old(passes)[p].cursor, targets, started)
      ensures started.None? ==> attempts == old(attempts) && passes[p].flights == old(passes)[p].flights
      ensures started.Some? ==> passes[p].cursor == started.value + 1
      ensures started.None? && allowed && passes[p].captured == generation && old(passes)[p].cursor <= |passes[p].ids| ==>
        passes[p].cursor == |passes[p].ids|
      ensures started.Some? ==> var id := passes[p].ids[started.value];
        attempts == old(attempts)[id := Attempt(targets(id).value.binding, now)]
      ensures started.Some? ==> var id := passes[p].ids[started.value];
        passes[p].flights == old(passes)[p].flights[id := targets(id).value.binding]
    {
      ghost var before := log;
      started := LookForDue(p, allowed, now, targets);
      if started.Some? {
        var id := passes[p].ids[started.value];
        OneMoreLook(before, log, Look(p, true, targets(id)));
        Start(p, id, targets(id), now);
      } else {
        OneMoreLook(before, log, Look(p, allowed, None));
        Leave(p, allowed);
      }
    }

    /** The turns of the loop that pass over ids that are not due. */
    method LookForDue(p: nat, allowed: bool, now: nat, targets: string -> Option<Target>) returns (found: Option<nat>)
      requires Valid() && p < |passes| && passes[p].idle > 0 && clock == now
      modifies this`passes, this`log
      ensures Valid() && ThenLooks(old(log), log) && |passes| == |old(passes)|
      ensures passes == old(passes)[p := old(passes)[p].(cursor := passes[p].cursor)]
      ensures !allowed || passes[p].captured != generation ==> found.None? && passes[p].cursor == old(passes)[p].cursor
      ensures allowed && passes[p].captured == generation ==>
        FirstDue(attempts, now, passes[p].ids, old(passes)[p].cursor, targets, found)
      ensures found.Some? ==> found.value == passes[p].cursor && allowed && passes[p].captured == generation
      ensures found.None? ==> passes[p].cursor >= |passes[p].ids| || passes[p].captured != generation || !allowed
      ensures old(passes)[p].cursor <= |passes[p].ids| ==> passes[p].cursor <= |passes[p].ids|
    {
      found := None;
      while passes[p].cursor < |passes[p].ids| && passes[p].captured == generation && allowed
        invariant Valid() && ThenLooks(old(log), log) && |passes| == |old(passes)|
        invariant old(passes)[p].cursor <= passes[p].cursor
        invariant old(passes)[p].cursor <= |passes[p].ids| ==> passes[p].cursor <= |passes[p].ids|
        invariant passes == old(passes)[p := old(passes)[p].(cursor := passes[p].cursor)]
        invariant passes[p].cursor != old(passes)[p].cursor ==> allowed && passes[p].captured == generation
        invariant NoneDue(attempts, now, passes[p].ids, old(passes)[p].cursor, passes[p].cursor, targets)
        decreases |passes[p].ids| - passes[p].cursor
      {
        var id := passes[p].ids[passes[p].cursor];
        if Due(attempts, now, id, targets(id)) {
          return Some(passes[p].cursor);
        }
        OneMoreLook(old(log), log, Look(p, true, targets(id)));
        OneMoreNotDue(attempts, now, passes[p].ids, old(passes)[p].cursor, passes[p].cursor, targets);
        Skip(p, targets(id));
      }
    }

    /** The id the worker took is not due. */
    method Skip(p: nat, target: Option<Target>)
      requires Valid() && Enabled(Here(), Look(p, true, target))
      requires passes[p].cursor < |passes[p].ids| && passes[p].captured == generation
      requires !Due(attempts, clock, passes[p].ids[passes[p].cursor], target)
      modifies this`passes, this`log
      ensures Valid() && log == old(log) + [Look(p, true, target)]
      ensures passes == old(passes)[p := old(passes)[p].(cursor := old(passes)[p].cursor + 1)]
    {
      Extend(concurrency, log, Look(p, true, target));
      passes := passes[p := passes[p].(cursor := passes[p].cursor + 1)];
      log := log + [Look(p, true, target)];
    }

    /** The worker's loop ends. */
    method Leave(p: nat, allowed: bool)
      requires Valid() && Enabled(Here(), Look(p, allowed, None))
      requires passes[p].cursor >= |passes[p].ids| || passes[p].captured != generation || !allowed
      modifies this`passes, this`log
      ensures Valid() && log == old(log) + [Look(p, allowed, None)]
      ensures passes == old(passes)[p := old(passes)[p].(idle := old(passes)[p].idle - 1)]
    {
      Extend(concurrency, log, Look(p, allowed, None));
      passes := passes[p := passes[p].(idle := passes[p].idle - 1)];
      log := log + [Look(p, allowed, None)];
    }

    /** The worker's turn ends with the refresh of the account it found due. */
    method Start(p: nat, id: string, target: Option<Target>, now: nat)
      requires Valid() && clock == now && Enabled(Here(), Look(p, true, target))
      requires passes[p].cursor < |passes[p].ids| && passes[p].captured == generation && id == passes[p].ids[passes[p].cursor]
      requires Due(attempts, clock, id, target)
      modifies this`passes, this`attempts, this`history, this`log
      ensures Valid() && log == old(log) + [Look(p, true, target)]
      ensures Here() == Apply(concurrency, old(Here()), Look(p, true, target))
    {
      Extend(concurrency, log, Look(p, true, target));
      var pass := passes[p];
      var binding := target.value.binding;
      attempts := attempts[id := Attempt(binding, now)];
      passes := passes[p := pass.(cursor := pass.cursor + 1, idle := pass.idle - 1, flights := pass.flights[id := binding])];
      history := history + [Started(p, id, binding, now)];
      log := log + [Look(p, true, target)];
    }

    /**
     * The refresh of `id` ends, well or badly: it is noted unless the pass is
     * outdated, and the worker goes on looking.
     */
    method Settle(p: nat, id: string, allowed: bool, now: nat, targets: string -> Option<Target>)
      returns (ghost started: Option<nat>)
      requires Valid() && p < |passes| && id in passes[p].flights && clock == now
      modifies this`passes, this`attempts, this`history, this`log
      ensures Valid() && ThenLooks(old(log) + [Event.Settle(p, id)], log)
      ensures |passes| == |old(passes)| && passes[p].idle == old(passes)[p].idle
      ensures old(passes)[p].captured != generation ==> attempts == old(attempts) && started.None?
      ensures allowed && old(passes)[p].captured == generation ==>
        FirstDue(old(attempts)[id := Attempt(old(passes)[p].flights[id], now)], now,
                 old(passes)[p].ids, old(passes)[p].cursor, targets, started)
      ensures started.None? ==> passes[p].flights == old(passes)[p].flights - {id}
      ensures started.Some? ==> started.value < |passes[p].ids| && targets(passes[p].ids[started.value]).Some?
      ensures started.Some? ==> var next := passes[p].ids[started.value];
        passes[p].flights == (old(passes)[p].flights - {id})[next := targets(next).value.binding]
    {
      Note(p, id, now);
      started := Turn(p, allowed, now, targets);
    }

    method Note(p: nat, id: string, now: nat)
      requires Valid() && p < |passes| && id in passes[p].flights && clock == now
      modifies this`passes, this`attempts, this`history, this`log
      ensures Valid() && log == old(log) + [Event.Settle(p, id)]
      ensures |passes| == |old(passes)| && passes[p].idle == old(passes)[p].idle + 1
      ensures passes[p] == old(passes)[p].(idle := old(passes)[p].idle + 1, flights := old(passes)[p].flights - {id})
      ensures attempts == if old(passes)[p].captured == generation
                          then old(attempts)[id := Attempt(old(passes)[p].flights[id], now)] else old(attempts)
    {
      Extend(concurrency, log, Event.Settle(p, id));
      var binding := passes[p].flights[id];
      passes := passes[p := passes[p].(idle := passes[p].idle + 1, flights := passes[p].flights - {id})];
      if passes[p].captured == generation {
        attempts := attempts[id := Attempt(binding, now)];
        history := history + [Noted(id, binding, now)];
      }
      log := log + [Event.Settle(p, id)];
    }

    /** All the workers have left: run returns, and unlocks itself if it is still the running pass. */
    method End(p: nat)
      requires Valid() && Enabled(Here(), Event.End(p))
      modifies this`passes, this`running, this`log
      ensures Valid() && log == old(log) + [Event.End(p)]
      ensures running == if old(passes)[p].captured == generation then None else old(running)
    {
      Extend(concurrency, log, Event.End(p));
      ValidIsPaced();
      assert PassOk(concurrency, Here(), p);
      if running == Some(p) {
        running := None;
      }
      passes := passes[p := passes[p].(ended := true)];
      log := log + [Event.End(p)];
    }

    method Pause()
      requires Valid()
      modifies this`generation, this`running, this`log
      ensures Valid() && log == old(log) + [Event.Pause]
      ensures running.None? && forall p: nat :: p < |passes| ==> passes[p].captured != generation
    {
      Extend(concurrency, log, Event.Pause);
      ValidIsPaced();
      forall p: nat | p < |passes| ensures passes[p].captured <= generation { assert PassOk(concurrency, Here(), p); }
      generation := generation + 1;
      running := None;
      log := log + [Event.Pause];
    }

    method Reset()
      requires Valid()
      modifies this`generation, this`running, this`attempts, this`history, this`log
      ensures Valid() && log == old(log) + [Event.Reset]
      ensures running.None? && attempts == map[] && forall p: nat :: p < |passes| ==> passes[p].captured != generation
    {
      Extend(concurrency, log, Event.Reset);
      ValidIsPaced();
      forall p: nat | p < |passes| ensures passes[p].captured <= generation { assert PassOk(concurrency, Here(), p); }
      generation := generation + 1;
      running := None;
      history := history + [Forgot(attempts.Keys)];
      attempts := map[];
      log := log + [Event.Reset];
    }
  }
}
