/**
 * The accounts auto-refresh (src/domain/accounts-auto-refresh.ts) as a machine:
 * passes whose workers share a cursor, refreshes that settle whenever they
 * like, and pauses and resets that leave old passes running. `history` records
 * every refresh started, every completion noted and every id forgotten.
 */
module AutoRefresh {
  import opened Lists

  const ACCOUNT_AUTO_REFRESH_MS := 300_000

  datatype Target = Target(binding: string, observedAt: nat, nextAllowedAt: nat, busy: bool)
  datatype Attempt = Attempt(binding: string, at: nat)

  /** `idle` workers are in their loop, `flights` await a refresh; the rest have left. */
  datatype Pass = Pass(captured: nat, ids: seq<string>, cursor: nat, idle: nat, flights: map<string, string>, ended: bool)

  datatype Entry =
    | Started(pass: nat, id: string, binding: string, at: nat)
    | Noted(id: string, binding: string, at: nat)
    | Forgot(ids: set<string>)

  datatype State = State(
    attempts: map<string, Attempt>, generation: nat, running: Option<nat>,
    passes: seq<Pass>, clock: nat, history: seq<Entry>)

  const Init := State(map[], 0, None, [], 0, [])

  /**
   * `Begin` is a call of run; `Look` one turn of a worker's loop, with what the
   * targets say of the id it takes; `Settle` the end of a refresh; `End` the end
   * of a pass all of whose workers have left.
   */
  datatype Event =
    | Advance(to: nat)
    | Begin(listed: seq<string>, allowed: bool)
    | Look(pass: nat, allowed: bool, target: Option<Target>)
    | Settle(pass: nat, id: string)
    | End(pass: nat)
    | Pause
    | Reset

  predicate Enabled(s: State, e: Event) {
    match e
    case Advance(to) => s.clock <= to
    case Look(p, _, _) => p < |s.passes| && s.passes[p].idle > 0
    case Settle(p, id) => p < |s.passes| && id in s.passes[p].flights
    case End(p) => p < |s.passes| && s.passes[p].idle == 0 && |s.passes[p].flights| == 0 && !s.passes[p].ended
    case _ => true
  }

  function Max(a: nat, b: nat): nat { if a < b then b else a }

  function LastAttempt(attempts: map<string, Attempt>, id: string, binding: string): nat {
    if id in attempts && attempts[id].binding == binding then attempts[id].at else 0
  }

  /** The conditions under which a worker refreshes the id it took. */
  predicate Due(attempts: map<string, Attempt>, now: nat, id: string, target: Option<Target>) {
    && target.Some? && !target.value.busy
    && target.value.nextAllowedAt <= now
    && Max(target.value.observedAt, LastAttempt(attempts, id, target.value.binding)) + ACCOUNT_AUTO_REFRESH_MS <= now
  }

  function SetPass(s: State, p: nat, pass: Pass): State
    requires p < |s.passes|
  {
    s.(passes := s.passes[p := pass])
  }

  function Apply(c: nat, s: State, e: Event): State
    requires Enabled(s, e)
  {
    match e
    case Advance(to) => s.(clock := to)
    case Begin(listed, allowed) =>
      if s.running.Some? || !allowed then s
      else
        var ids := Unique(listed);
        var dropped := set id | id in s.attempts && id !in ids;
        s.(running := Some(|s.passes|), attempts := s.attempts - dropped,
           passes := s.passes + [Pass(s.generation, ids, 0, if c < |ids| then c else |ids|, map[], false)],
           history := s.history + [Forgot(dropped)])
    case Look(p, allowed, target) =>
      var pass := s.passes[p];
      if pass.cursor >= |pass.ids| || pass.captured != s.generation || !allowed then
        SetPass(s, p, pass.(idle := pass.idle - 1))
      else
        var id := pass.ids[pass.cursor];
        if !Due(s.attempts, s.clock, id, target) then SetPass(s, p, pass.(cursor := pass.cursor + 1))
        else
          var binding := target.value.binding;
          SetPass(s, p, pass.(cursor := pass.cursor + 1, idle := pass.idle - 1, flights := pass.flights[id := binding]))
          .(attempts := s.attempts[id := Attempt(binding, s.clock)],
            history := s.history + [Started(p, id, binding, s.clock)])
    case Settle(p, id) =>
      var pass := s.passes[p];
      var binding := pass.flights[id];
      var t := SetPass(s, p, pass.(idle := pass.idle + 1, flights := pass.flights - {id}));
      if pass.captured != s.generation then t
      else t.(attempts := s.attempts[id := Attempt(binding, s.clock)], history := s.history + [Noted(id, binding, s.clock)])
    case End(p) =>
      SetPass(s, p, s.passes[p].(ended := true)).(running := if s.running == Some(p) then None else s.running)
    case Pause => s.(generation := s.generation + 1, running := None)
    case Reset =>
      s.(generation := s.generation + 1, running := None, attempts := map[], history := s.history + [Forgot(s.attempts.Keys)])
  }

  predicate Legal(c: nat, s: State, es: seq<Event>)
    decreases |es|, 0
  {
    es == [] || (Legal(c, s, es[..|es| - 1]) && Enabled(Run(c, s, es[..|es| - 1]), es[|es| - 1]))
  }

  function Run(c: nat, s: State, es: seq<Event>): State
    requires Legal(c, s, es)
    decreases |es|, 1
  {
    if es == [] then s else Apply(c, Run(c, s, es[..|es| - 1]), es[|es| - 1])
  }

  // ---- What every run keeps ------------------------------------------------------------

  /** Entry `i` is a start or a completion of `id` that no later entry starts or forgets. */
  ghost predicate Fresh(h: seq<Entry>, i: nat, id: string) {
    i < |h| && IsAbout(h[i], id) && forall k :: i < k < |h| ==> !Supersedes(h[k], id)
  }

  predicate IsAbout(entry: Entry, id: string) {
    !entry.Forgot? && entry.id == id
  }

  predicate Supersedes(entry: Entry, id: string) {
    match entry
    case Started(_, other, _, _) => other == id
    case Noted(_, _, _) => false
    case Forgot(ids) => id in ids
  }

  /**
   * Pacing: a start comes at least the interval after the previous start of its
   * id, and after the completion of that one if it was noted, when the binding
   * is the same and the id was not forgotten in between.
   */
  ghost predicate Paced(h: seq<Entry>) {
    forall j: nat :: j < |h| && h[j].Started? ==> PacedAt(h, j)
  }

  ghost predicate PacedAt(h: seq<Entry>, j: nat)
    requires j < |h| && h[j].Started?
  {
    forall i: nat :: Fresh(h[..j], i, h[j].id) && h[i].binding == h[j].binding ==>
      h[i].at + ACCOUNT_AUTO_REFRESH_MS <= h[j].at
  }

  /** No pass starts an id twice. */
  ghost predicate OncePerPass(h: seq<Entry>) {
    forall i, j :: 0 <= i < j < |h| && h[i].Started? && h[j].Started? && h[i].pass == h[j].pass ==> h[i].id != h[j].id
  }

  /** `attempts` remembers the last start of every id, or something later of the same binding. */
  ghost predicate Remembered(s: State) {
    forall i: nat, id :: Fresh(s.history, i, id) ==>
      && id in s.attempts && s.attempts[id].binding == s.history[i].binding
      && s.history[i].at <= s.attempts[id].at <= s.clock
  }

  /** The ids the workers of a pass have taken. */
  function Taken(s: State, p: nat): set<string> {
    if p < |s.passes| then set k | 0 <= k < s.passes[p].cursor && k < |s.passes[p].ids| :: s.passes[p].ids[k] else {}
  }

  ghost predicate StartsAreTaken(s: State) {
    forall i :: 0 <= i < |s.history| && s.history[i].Started? ==>
      s.history[i].pass < |s.passes| && s.history[i].id in Taken(s, s.history[i].pass)
  }

  /**
   * A pass never has more than `c` refreshes in flight. One of the current
   * generation is the running one or has ended.
   */
  ghost predicate PassOk(c: nat, s: State, p: nat)
    requires p < |s.passes|
  {
    var pass := s.passes[p];
    && Distinct(pass.ids) && pass.cursor <= |pass.ids| && pass.captured <= s.generation
    && pass.idle + |pass.flights| <= c
    && pass.flights.Keys <= Taken(s, p)
    && (pass.ended ==> pass.flights == map[] && pass.idle == 0)
    && (pass.captured == s.generation ==> s.running == Some(p) || pass.ended)
    && (pass.captured == s.generation ==> forall id :: id in pass.flights ==>
          id in s.attempts && s.attempts[id].binding == pass.flights[id])
  }

  ghost predicate PassesOk(c: nat, s: State) {
    && (forall p: nat :: p < |s.passes| ==> PassOk(c, s, p))
    && (s.running.Some? ==> s.running.value < |s.passes| && Current(s, s.running.value) && !s.passes[s.running.value].ended)
  }

  /** No pause or reset came after the pass began. */
  predicate Current(s: State, p: nat)
    requires p < |s.passes|
  {
    s.passes[p].captured == s.generation
  }

  ghost predicate Inv(c: nat, s: State) {
    PassesOk(c, s) && Remembered(s) && StartsAreTaken(s) && OncePerPass(s.history) && Paced(s.history)
  }

  // ---- One step ------------------------------------------------------------------------

  lemma AddingAnEntry(h: seq<Entry>, entry: Entry)
    ensures forall i: nat, id :: Fresh(h + [entry], i, id) <==>
      if i == |h| then IsAbout(entry, id) else Fresh(h, i, id) && !Supersedes(entry, id)
  {
    forall i: nat, id ensures Fresh(h + [entry], i, id) <==>
      if i == |h| then IsAbout(entry, id) else Fresh(h, i, id) && !Supersedes(entry, id)
    {
      if i < |h| {
        assert (h + [entry])[|h|] == entry;
        assert forall k :: 0 <= k < |h| ==> (h + [entry])[k] == h[k];
      }
    }
  }

  lemma AddingKeepsPaced(h: seq<Entry>, entry: Entry)
    requires Paced(h)
    requires entry.Started? ==> forall i: nat :: Fresh(h, i, entry.id) && h[i].binding == entry.binding ==>
      h[i].at + ACCOUNT_AUTO_REFRESH_MS <= entry.at
    ensures Paced(h + [entry])
  {
    var g := h + [entry];
    forall j: nat | j < |g| && g[j].Started? ensures PacedAt(g, j) {
      assert g[..j] == h[..j];
      if j < |h| { assert PacedAt(h, j); } else { assert h[..j] == h; }
    }
  }

  /** The pass a worker changes keeps its list, and the others are as they were. */
  lemma ChangingAPass(c: nat, s: State, t: State, p: nat)
    requires PassesOk(c, s) && p < |s.passes|
    requires |t.passes| == |s.passes| && t.passes == s.passes[p := t.passes[p]]
    requires t.generation == s.generation && (t.running == s.running || (t.running == None && s.running == Some(p)))
    requires t.passes[p].captured == s.passes[p].captured && (t.running == Some(p) ==> !t.passes[p].ended)
    requires PassOk(c, t, p)
    requires s.passes[p].captured != s.generation || s.passes[p].ended ==> t.attempts == s.attempts
    ensures PassesOk(c, t)
  {
    forall q: nat | q < |t.passes| && q != p ensures PassOk(c, t, q) {
      assert PassOk(c, s, q) && PassOk(c, s, p);
      assert Taken(t, q) == Taken(s, q);
    }
  }

  lemma TakenGrows(s: State, t: State, p: nat)
    requires p < |s.passes| && |t.passes| == |s.passes| && t.passes == s.passes[p := t.passes[p]]
    requires t.passes[p].ids == s.passes[p].ids && s.passes[p].cursor <= t.passes[p].cursor
    ensures forall q :: Taken(s, q) <= Taken(t, q)
  {
  }

  /** A worker finds the id it took due. */
  ghost predicate Starting(c: nat, s: State, p: nat, target: Option<Target>) {
    && Inv(c, s) && Enabled(s, Look(p, true, target))
    && s.passes[p].cursor < |s.passes[p].ids| && s.passes[p].captured == s.generation
    && Due(s.attempts, s.clock, s.passes[p].ids[s.passes[p].cursor], target)
  }

  lemma StartingKeepsPasses(c: nat, s: State, p: nat, target: Option<Target>)
    requires Starting(c, s, p, target)
    ensures PassesOk(c, Apply(c, s, Look(p, true, target)))
    ensures s.passes[p].ids[s.passes[p].cursor] !in Taken(s, p)
    ensures s.passes[p].ids[s.passes[p].cursor] in Taken(Apply(c, s, Look(p, true, target)), p)
  {
    var t := Apply(c, s, Look(p, true, target));
    var pass := s.passes[p];
    var id := pass.ids[pass.cursor];
    assert PassOk(c, s, p);
    TakenGrows(s, t, p);
    assert PassOk(c, t, p) by {
      OneMoreFlight(pass, id, target.value.binding);
    }
    ChangingAPass(c, s, t, p);
  }

  lemma StartingKeepsHistory(c: nat, s: State, p: nat, target: Option<Target>)
    requires Starting(c, s, p, target)
    ensures Remembered(Apply(c, s, Look(p, true, target))) && Paced(Apply(c, s, Look(p, true, target)).history)
  {
    var entry := Started(p, s.passes[p].ids[s.passes[p].cursor], target.value.binding, s.clock);
    AddingAnEntry(s.history, entry);
    AddingKeepsPaced(s.history, entry);
  }

  lemma StartingKeepsInv(c: nat, s: State, p: nat, target: Option<Target>)
    requires Starting(c, s, p, target)
    ensures Inv(c, Apply(c, s, Look(p, true, target)))
  {
    var t := Apply(c, s, Look(p, true, target));
    StartingKeepsPasses(c, s, p, target);
    StartingKeepsHistory(c, s, p, target);
    TakenGrows(s, t, p);
    assert StartsAreTaken(t);
    assert OncePerPass(t.history);
  }

  lemma LookKeepsInv(c: nat, s: State, e: Event)
    requires Inv(c, s) && Enabled(s, e) && e.Look?
    ensures Inv(c, Apply(c, s, e))
  {
    var t := Apply(c, s, e);
    var pass := s.passes[e.pass];
    assert PassOk(c, s, e.pass);
    if pass.cursor < |pass.ids| && pass.captured == s.generation && e.allowed && Due(s.attempts, s.clock, pass.ids[pass.cursor], e.target) {
      assert Apply(c, s, e) == Apply(c, s, Look(e.pass, true, e.target));
      StartingKeepsInv(c, s, e.pass, e.target);
    } else {
      TakenGrows(s, t, e.pass);
      assert PassOk(c, t, e.pass);
      ChangingAPass(c, s, t, e.pass);
    }
  }

  lemma SettleKeepsInv(c: nat, s: State, p: nat, id: string)
    requires Inv(c, s) && Enabled(s, Settle(p, id))
    ensures Inv(c, Apply(c, s, Settle(p, id)))
  {
    var t := Apply(c, s, Settle(p, id));
    var pass := s.passes[p];
    assert PassOk(c, s, p);
    TakenGrows(s, t, p);
    assert PassOk(c, t, p) by {
      OneFlightLess(pass, id);
    }
    ChangingAPass(c, s, t, p);
    if pass.captured == s.generation {
      var entry := Noted(id, pass.flights[id], s.clock);
      AddingAnEntry(s.history, entry);
      AddingKeepsPaced(s.history, entry);
      assert Remembered(t);
    }
  }

  lemma EndKeepsInv(c: nat, s: State, p: nat)
    requires Inv(c, s) && Enabled(s, End(p))
    ensures Inv(c, Apply(c, s, End(p)))
  {
    var t := Apply(c, s, End(p));
    assert PassOk(c, s, p);
    TakenGrows(s, t, p);
    assert PassOk(c, t, p);
    ChangingAPass(c, s, t, p);
  }

  lemma BeginKeepsPasses(c: nat, s: State, listed: seq<string>)
    requires PassesOk(c, s) && StartsAreTaken(s) && s.running.None?
    ensures PassesOk(c, Apply(c, s, Begin(listed, true))) && StartsAreTaken(Apply(c, s, Begin(listed, true)))
  {
    var t := Apply(c, s, Begin(listed, true));
    forall p: nat | p < |s.passes| ensures PassOk(c, t, p) && Taken(t, p) == Taken(s, p) {
      assert PassOk(c, s, p);
    }
  }

  lemma BeginKeepsHistory(c: nat, s: State, listed: seq<string>)
    requires Inv(c, s) && s.running.None?
    ensures var t := Apply(c, s, Begin(listed, true)); Remembered(t) && Paced(t.history) && OncePerPass(t.history)
  {
    var dropped := set id | id in s.attempts && id !in Unique(listed);
    AddingAnEntry(s.history, Forgot(dropped));
    AddingKeepsPaced(s.history, Forgot(dropped));
  }

  lemma BeginKeepsInv(c: nat, s: State, listed: seq<string>, allowed: bool)
    requires Inv(c, s)
    ensures Inv(c, Apply(c, s, Begin(listed, allowed)))
  {
    if s.running.None? && allowed {
      BeginKeepsPasses(c, s, listed);
      BeginKeepsHistory(c, s, listed);
    }
  }

  lemma StopKeepsInv(c: nat, s: State, e: Event)
    requires Inv(c, s) && (e.Pause? || e.Reset? || e.Advance?) && Enabled(s, e)
    ensures Inv(c, Apply(c, s, e))
  {
    var t := Apply(c, s, e);
    forall p: nat | p < |s.passes| ensures PassOk(c, t, p) && Taken(t, p) == Taken(s, p) {
      assert PassOk(c, s, p);
    }
    if e.Reset? {
      AddingAnEntry(s.history, Forgot(s.attempts.Keys));
      AddingKeepsPaced(s.history, Forgot(s.attempts.Keys));
    }
  }

  /** Every reachable state keeps the invariants, whatever the interleaving. */
  lemma {:induction false} EveryRunIsPaced(c: nat, es: seq<Event>)
    requires Legal(c, Init, es)
    ensures Inv(c, Run(c, Init, es))
  {
    if es != [] {
      EveryRunIsPaced(c, es[..|es| - 1]);
      var s, e := Run(c, Init, es[..|es| - 1]), es[|es| - 1];
      match e {
        case Begin(listed, allowed) => BeginKeepsInv(c, s, listed, allowed);
        case Look(_, _, _) => LookKeepsInv(c, s, e);
        case Settle(p, id) => SettleKeepsInv(c, s, p, id);
        case End(p) => EndKeepsInv(c, s, p);
        case _ => StopKeepsInv(c, s, e);
      }
    }
  }

  // ---- What a worker does with the id it takes -----------------------------------------

  /** An id is due when it is idle, past its own limit, and five minutes past both its observation and its last attempt under this binding. */
  lemma DueExactly(attempts: map<string, Attempt>, now: nat, id: string, target: Option<Target>)
    ensures Due(attempts, now, id, target) <==>
      && target.Some? && !target.value.busy
      && target.value.nextAllowedAt <= now
      && target.value.observedAt + 300_000 <= now
      && (id in attempts && attempts[id].binding == target.value.binding ==> attempts[id].at + 300_000 <= now)
  {
  }

  /** The event is a look at a target that was idle, allowed and five minutes old when the start was recorded. */
  ghost predicate WasDue(entry: Entry, e: Event)
    requires entry.Started?
  {
    && e.Look? && e.pass == entry.pass && e.allowed && e.target.Some?
    && e.target.value.binding == entry.binding && !e.target.value.busy
    && e.target.value.nextAllowedAt <= entry.at && e.target.value.observedAt + 300_000 <= entry.at
  }

  /** Every refresh ever started was started by a worker that looked at such a target. */
  lemma {:induction false} EveryStartWasDue(c: nat, es: seq<Event>, j: nat)
    requires Legal(c, Init, es) && j < |Run(c, Init, es).history| && Run(c, Init, es).history[j].Started?
    ensures exists k :: 0 <= k < |es| && WasDue(Run(c, Init, es).history[j], es[k])
  {
    var before, e := es[..|es| - 1], es[|es| - 1];
    var s := Run(c, Init, before);
    if j < |s.history| {
      assert Run(c, Init, es).history[j] == s.history[j];
      EveryStartWasDue(c, before, j);
      var k :| 0 <= k < |before| && WasDue(s.history[j], before[k]);
      assert es[k] == before[k];
    } else {
      assert WasDue(Run(c, Init, es).history[j], es[|es| - 1]);
    }
  }

  // ---- Over whole runs -----------------------------------------------------------------

  /**
   * Two consecutive starts of an id under one binding are at least the interval
   * apart, across passes and pauses, unless the id was forgotten in between;
   * and so is a start from the noted completion before it.
   */
  lemma StartsAreSpaced(c: nat, es: seq<Event>, i: nat, j: nat)
    requires Legal(c, Init, es)
    requires var h := Run(c, Init, es).history; i < j < |h| && h[j].Started? && IsAbout(h[i], h[j].id)
    requires var h := Run(c, Init, es).history; h[i].binding == h[j].binding
    requires var h := Run(c, Init, es).history; forall k :: i < k < j ==> !Supersedes(h[k], h[j].id)
    ensures var h := Run(c, Init, es).history; h[i].at + ACCOUNT_AUTO_REFRESH_MS <= h[j].at
  {
    EveryRunIsPaced(c, es);
    var h := Run(c, Init, es).history;
    assert PacedAt(h, j);
    assert Fresh(h[..j], i, h[j].id);
  }

  /** `run` refuses to begin exactly while a pass that no pause or reset outdated is still going. */
  lemma RunningIsTheCurrentPass(c: nat, es: seq<Event>)
    requires Legal(c, Init, es)
    ensures var s := Run(c, Init, es);
      s.running.Some? <==> exists p: nat :: p < |s.passes| && Current(s, p) && !s.passes[p].ended
  {
    EveryRunIsPaced(c, es);
    var s := Run(c, Init, es);
    forall p: nat | p < |s.passes| && Current(s, p) && !s.passes[p].ended ensures s.running == Some(p) {
      assert PassOk(c, s, p);
    }
  }

  /** A pass outdated by a pause or a reset starts nothing, notes nothing and does not unlock `run`. */
  lemma OutdatedPassesAreInert(c: nat, es: seq<Event>, e: Event)
    requires Legal(c, Init, es) && Enabled(Run(c, Init, es), e)
    requires e.Look? || e.Settle? || e.End?
    requires !Current(Run(c, Init, es), e.pass)
    ensures var s, t := Run(c, Init, es), Apply(c, Run(c, Init, es), e);
      t.attempts == s.attempts && t.history == s.history && t.running == s.running && t.passes[e.pass].flights.Keys <= s.passes[e.pass].flights.Keys
  {
    EveryRunIsPaced(c, es);
  }

  ghost predicate NeverDenied(es: seq<Event>, p: nat) {
    forall k :: 0 <= k < |es| && es[k].Look? && es[k].pass == p ==> es[k].allowed
  }

  /** No worker has left while there is an id to take. */
  ghost predicate AllAtWork(c: nat, pass: Pass) {
    pass.cursor < |pass.ids| ==> pass.idle + |pass.flights| == if c < |pass.ids| then c else |pass.ids|
  }

  lemma OneMoreFlight(pass: Pass, id: string, binding: string)
    requires id !in pass.flights
    ensures |pass.flights[id := binding]| == |pass.flights| + 1
  {
    assert pass.flights[id := binding].Keys == pass.flights.Keys + {id};
    assert |pass.flights[id := binding]| == |pass.flights[id := binding].Keys| && |pass.flights| == |pass.flights.Keys|;
  }

  lemma OneFlightLess(pass: Pass, id: string)
    requires id in pass.flights
    ensures |pass.flights - {id}| == |pass.flights| - 1
  {
    assert (pass.flights - {id}).Keys == pass.flights.Keys - {id};
    assert |pass.flights - {id}| == |(pass.flights - {id}).Keys| && |pass.flights| == |pass.flights.Keys|;
  }

  /** An outdated pass stays outdated. */
  lemma OutdatedForGood(c: nat, s: State, e: Event, p: nat)
    requires Enabled(s, e) && p < |s.passes| && s.passes[p].captured < s.generation
    ensures p < |Apply(c, s, e).passes| && !Current(Apply(c, s, e), p)
  {
    var t := Apply(c, s, e);
    assert t.generation >= s.generation && t.passes[p].captured == s.passes[p].captured;
  }

  lemma WorkersStayOneStep(c: nat, s: State, e: Event, p: nat)
    requires PassesOk(c, s) && Enabled(s, e) && p < |s.passes| && AllAtWork(c, s.passes[p])
    requires Current(s, p) && (e.Look? && e.pass == p ==> e.allowed)
    ensures AllAtWork(c, Apply(c, s, e).passes[p])
  {
    var pass, after := s.passes[p], Apply(c, s, e).passes[p];
    if e.Look? && e.pass == p {
      if pass.cursor < |pass.ids| {
        LookingKeepsWorkers(c, s, e, p);
      } else {
        assert after.cursor == pass.cursor && after.ids == pass.ids;
      }
    } else if e.Settle? && e.pass == p {
      assert after == pass.(idle := pass.idle + 1, flights := pass.flights - {e.id});
      OneFlightLess(pass, e.id);
    } else {
      assert after == pass.(ended := after.ended);
    }
  }

  lemma LookingKeepsWorkers(c: nat, s: State, e: Event, p: nat)
    requires PassesOk(c, s) && Enabled(s, e) && e.Look? && e.pass == p && e.allowed && Current(s, p)
    requires s.passes[p].cursor < |s.passes[p].ids|
    ensures var pass, after := s.passes[p], Apply(c, s, e).passes[p];
      after.ids == pass.ids && after.idle + |after.flights| == pass.idle + |pass.flights|
  {
    var pass := s.passes[p];
    var id := pass.ids[pass.cursor];
    assert PassOk(c, s, p);
    assert id !in Taken(s, p);
    if Due(s.attempts, s.clock, id, e.target) {
      OneMoreFlight(pass, id, e.target.value.binding);
    }
  }

  lemma {:induction false} WorkersStay(c: nat, es: seq<Event>, p: nat)
    requires Legal(c, Init, es) && NeverDenied(es, p)
    requires p < |Run(c, Init, es).passes| && Current(Run(c, Init, es), p)
    ensures AllAtWork(c, Run(c, Init, es).passes[p])
  {
    var before, e := es[..|es| - 1], es[|es| - 1];
    var s := Run(c, Init, before);
    EveryRunIsPaced(c, before);
    if p < |s.passes| {
      assert PassOk(c, s, p);
      if !Current(s, p) { OutdatedForGood(c, s, e, p); }
      assert NeverDenied(before, p);
      WorkersStay(c, before, p);
      WorkersStayOneStep(c, s, e, p);
    }
  }

  /** A pass that is neither outdated nor denied ends only when every listed id was taken. */
  lemma NoIdIsMissed(c: nat, es: seq<Event>, p: nat)
    requires c >= 1 && Legal(c, Init, es) && NeverDenied(es, p)
    requires p < |Run(c, Init, es).passes| && Current(Run(c, Init, es), p) && Run(c, Init, es).passes[p].ended
    ensures forall id :: id in Run(c, Init, es).passes[p].ids ==> id in Taken(Run(c, Init, es), p)
  {
    EveryRunIsPaced(c, es);
    WorkersStay(c, es, p);
    assert PassOk(c, Run(c, Init, es), p);
  }
}
