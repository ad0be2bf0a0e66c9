/**
 * Publication of control tokens (src/api/dashboard-v3.ts and the store it feeds,
 * src/stores/controlPlane.ts). Responses may arrive in any order, after any
 * number of server restarts and session resets. The client tells processes
 * apart but cannot order them: its code is generic in the type of process ids.
 */
module ControlTokens {
  import opened Lists

  datatype Tokens<P> = Tokens(process: P, revision: int)

  /** The client: the sink's epoch, whether a sink is registered, and what the store holds. */
  datatype Client<P> = Client(epoch: nat, attached: bool, held: Option<Tokens<P>>)

  function Observed<P>(client: Client<P>): Option<P> {
    if client.attached && client.held.Some? then Some(client.held.value.process) else None
  }

  function MayPublish<P(==)>(origin: Option<P>, current: Option<P>, incoming: P): bool {
    if origin.Some? && current.Some? && current != origin && Some(incoming) == origin then false
    else !(origin.None? && current.Some? && Some(incoming) != current)
  }

  /** Within one process a lower revision is an older read; another process is adopted as it is. */
  function Synced<P(==)>(held: Option<Tokens<P>>, incoming: Tokens<P>): Option<Tokens<P>> {
    if held.Some? && incoming.process == held.value.process && incoming.revision < held.value.revision then held
    else Some(incoming)
  }

  function Publish<P(==)>(client: Client<P>, tokens: Option<Tokens<P>>, epoch: nat, origin: Option<P>): Client<P> {
    if epoch != client.epoch || !client.attached || tokens.None? then client
    else if !MayPublish(origin, Observed(client), tokens.value.process) then client
    else client.(held := Synced(client.held, tokens.value))
  }

  function MayEmit<P(==)>(client: Client<P>, epoch: nat, origin: Option<P>, incoming: Option<P>): bool {
    epoch == client.epoch && (origin == Observed(client) || (Observed(client).Some? && incoming == Observed(client)))
  }

  /** A registration bumps the epoch; the store that registers starts, or is reset, without tokens. */
  function Register<P>(client: Client<P>, attached: bool): Client<P> {
    Client(client.epoch + 1, attached, if attached then None else client.held)
  }

  // ---- Client, server and network ------------------------------------------------------

  /** A response is the work of process `server`; not every body carries the tokens. */
  datatype Reply = Reply(server: nat, tokens: Option<Tokens<nat>>)

  datatype Request = Request(epoch: nat, origin: Option<nat>, reply: Option<Reply>)

  /** Processes are numbered in the order the server ran them; `revisions` has the current revision of each. */
  datatype State = State(client: Client<nat>, revisions: seq<int>, requests: seq<Request>)

  datatype Event =
    | Restart(revision: int)
    | Write
    | SetSink(attached: bool)
    | Dispatch
    | Serve(request: nat, withTokens: bool)
    | Arrive(request: nat)

  function Server(s: State): nat
    requires |s.revisions| > 0
  {
    |s.revisions| - 1
  }

  predicate Enabled(s: State, e: Event) {
    |s.revisions| > 0 &&
    match e
    case Serve(i, _) => i < |s.requests| && s.requests[i].reply.None?
    case Arrive(i) => i < |s.requests| && s.requests[i].reply.Some?
    case _ => true
  }

  function Apply(s: State, e: Event): State
    requires Enabled(s, e)
  {
    match e
    case Restart(revision) => s.(revisions := s.revisions + [revision])
    case Write => s.(revisions := s.revisions[Server(s) := s.revisions[Server(s)] + 1])
    case SetSink(attached) => s.(client := Register(s.client, attached))
    case Dispatch => s.(requests := s.requests + [Request(s.client.epoch, Observed(s.client), None)])
    case Serve(i, withTokens) =>
      var tokens := if withTokens then Some(Tokens(Server(s), s.revisions[Server(s)])) else None;
      s.(requests := s.requests[i := s.requests[i].(reply := Some(Reply(Server(s), tokens)))])
    case Arrive(i) =>
      var r := s.requests[i];
      s.(client := Publish(s.client, r.reply.value.tokens, r.epoch, r.origin))
  }

  predicate Legal(s: State, es: seq<Event>)
    decreases |es|, 0
  {
    es == [] || (Legal(s, es[..|es| - 1]) && Enabled(Run(s, es[..|es| - 1]), es[|es| - 1]))
  }

  function Run(s: State, es: seq<Event>): State
    requires Legal(s, es)
    decreases |es|, 1
  {
    if es == [] then s else Apply(Run(s, es[..|es| - 1]), es[|es| - 1])
  }

  // ---- What every run keeps ------------------------------------------------------------

  /** Tokens some process really had: never of a process, or a revision, still to come. */
  predicate Genuine(revisions: seq<int>, tokens: Tokens<nat>) {
    tokens.process < |revisions| && tokens.revision <= revisions[tokens.process]
  }

  /** A request was served by its origin or a later process, and the reply names who served it. */
  predicate RequestOk(s: State, r: Request) {
    && r.epoch <= s.client.epoch
    && (r.origin.Some? ==> r.origin.value < |s.revisions|)
    && (r.reply.Some? ==>
          && r.reply.value.server < |s.revisions|
          && (r.origin.Some? ==> r.origin.value <= r.reply.value.server)
          && (r.reply.value.tokens.Some? ==>
                r.reply.value.tokens.value.process == r.reply.value.server && Genuine(s.revisions, r.reply.value.tokens.value)))
  }

  predicate Sound(s: State) {
    && |s.revisions| > 0
    && (s.client.held.Some? ==> Genuine(s.revisions, s.client.held.value))
    && forall r :: r in s.requests ==> RequestOk(s, r)
  }

  lemma StepIsSound(s: State, e: Event)
    requires Sound(s) && Enabled(s, e)
    ensures Sound(Apply(s, e))
  {
    var t := Apply(s, e);
    assert forall tokens: Tokens<nat> :: Genuine(s.revisions, tokens) ==> Genuine(t.revisions, tokens);
    forall r | r in t.requests ensures RequestOk(t, r) {
      if r in s.requests {
        assert RequestOk(s, r);
      } else if e.Serve? {
        assert s.requests[e.request] in s.requests;
      }
    }
    if e.Arrive? { assert s.requests[e.request] in s.requests; }
  }

  /** Whatever the order of arrival, the client only holds tokens a process really had. */
  lemma {:induction false} EveryRunIsSound(s: State, es: seq<Event>)
    requires Sound(s) && Legal(s, es)
    ensures Sound(Run(s, es))
  {
    if es != [] {
      EveryRunIsSound(s, es[..|es| - 1]);
      StepIsSound(Run(s, es[..|es| - 1]), es[|es| - 1]);
    }
  }

  // ---- When the held tokens go back ----------------------------------------------------

  /** Lexicographic: a later process, or the same one at no lower revision. */
  predicate NotBehind(a: Option<Tokens<nat>>, b: Option<Tokens<nat>>) {
    a.Some? ==>
      && b.Some? && a.value.process <= b.value.process
      && (a.value.process == b.value.process ==> a.value.revision <= b.value.revision)
  }

  /**
   * The response was sent by a process strictly between the one its request
   * was bound to and the one the client holds now.
   */
  predicate Between(s: State, i: nat)
    requires Enabled(s, Arrive(i))
  {
    var r := s.requests[i];
    && r.epoch == s.client.epoch && s.client.attached && r.reply.value.tokens.Some?
    && r.origin.Some? && s.client.held.Some?
    && r.origin.value < r.reply.value.server < s.client.held.value.process
  }

  /** An arrival takes the client back to an earlier process or revision exactly when it comes from in between. */
  lemma ArrivalGoesBackExactlyWhenBetween(s: State, i: nat)
    requires Sound(s) && Enabled(s, Arrive(i))
    ensures !NotBehind(s.client.held, Apply(s, Arrive(i)).client.held) <==> Between(s, i)
  {
    assert RequestOk(s, s.requests[i]) by { assert s.requests[i] in s.requests; }
  }

  /** At most one restart separates the response's origin from the server of the moment. */
  predicate Prompt(s: State, e: Event)
    requires Enabled(s, e)
  {
    e.Arrive? && s.requests[e.request].origin.Some? ==> Server(s) <= s.requests[e.request].origin.value + 1
  }

  predicate AllPrompt(s: State, es: seq<Event>)
    requires Legal(s, es)
  {
    es == [] || (AllPrompt(s, es[..|es| - 1]) && Prompt(Run(s, es[..|es| - 1]), es[|es| - 1]))
  }

  /**
   * The client holds nothing before `floor`; while a new session has loaded
   * nothing, neither has any answer it may publish.
   */
  predicate NeverBefore(floor: Tokens<nat>, s: State) {
    && Genuine(s.revisions, floor)
    && (s.client.held.Some? ==> NotBehind(Some(floor), s.client.held))
    && (s.client.held.None? ==> forall r :: r in s.requests ==> MayLoad(floor, s.client.epoch, r))
  }

  predicate MayLoad(floor: Tokens<nat>, epoch: nat, r: Request) {
    r.epoch == epoch && r.reply.Some? && r.reply.value.tokens.Some? ==> NotBehind(Some(floor), r.reply.value.tokens)
  }

  predicate IsBetween(s: State, e: Event)
    requires Enabled(s, e)
  {
    e.Arrive? && Between(s, e.request)
  }

  lemma StepNeverGoesBack(floor: Tokens<nat>, s: State, e: Event)
    requires Sound(s) && Enabled(s, e) && !IsBetween(s, e) && NeverBefore(floor, s)
    ensures NeverBefore(floor, Apply(s, e))
  {
    var t := Apply(s, e);
    if e.Arrive? {
      assert s.requests[e.request] in s.requests;
      assert RequestOk(s, s.requests[e.request]);
    } else if t.client.held.None? {
      forall r | r in t.requests ensures MayLoad(floor, t.client.epoch, r) {
        if r in s.requests {
          assert RequestOk(s, r);
        } else if e.Serve? {
          assert MayLoad(floor, s.client.epoch, s.requests[e.request]);
        }
      }
    }
  }

  /** The tokens held, or those last held while a new session has loaded none. */
  function LastHeld(s: State, es: seq<Event>): Option<Tokens<nat>>
    requires Legal(s, es)
  {
    if es == [] || Run(s, es).client.held.Some? then Run(s, es).client.held else LastHeld(s, es[..|es| - 1])
  }

  lemma {:induction false} NothingBeforeLastHeld(s: State, es: seq<Event>)
    requires Sound(s) && Legal(s, es) && LastHeld(s, es).Some?
    ensures NeverBefore(LastHeld(s, es).value, Run(s, es))
  {
    EveryRunIsSound(s, es);
    if Run(s, es).client.held.None? {
      var before := es[..|es| - 1];
      NothingBeforeLastHeld(s, before);
      EveryRunIsSound(s, before);
      StepNeverGoesBack(LastHeld(s, before).value, Run(s, before), es[|es| - 1]);
    }
  }

  /** At every step of the run, the tokens last held are not behind those of the step before. */
  predicate NeverBack(s: State, es: seq<Event>)
    requires Legal(s, es)
  {
    es == [] || (NeverBack(s, es[..|es| - 1]) && NotBehind(LastHeld(s, es[..|es| - 1]), LastHeld(s, es)))
  }

  predicate NoneBetween(s: State, es: seq<Event>)
    requires Legal(s, es)
  {
    es == [] || (NoneBetween(s, es[..|es| - 1]) && !IsBetween(Run(s, es[..|es| - 1]), es[|es| - 1]))
  }

  lemma LastStepBackExactlyWhenBetween(s: State, es: seq<Event>)
    requires Sound(s) && Legal(s, es) && es != []
    ensures NotBehind(LastHeld(s, es[..|es| - 1]), LastHeld(s, es)) <==> !IsBetween(Run(s, es[..|es| - 1]), es[|es| - 1])
  {
    var before, e := es[..|es| - 1], es[|es| - 1];
    var mid := Run(s, before);
    EveryRunIsSound(s, before);
    if LastHeld(s, before).Some? { NothingBeforeLastHeld(s, before); }
    if e.Arrive? {
      ArrivalGoesBackExactlyWhenBetween(mid, e.request);
      assert mid.requests[e.request] in mid.requests;
    }
  }

  /** Over a run, the tokens held never go back if and only if no arrival of it comes from in between. */
  lemma {:induction false} RunsGoBackExactlyWhenBetween(s: State, es: seq<Event>)
    requires Sound(s) && Legal(s, es)
    ensures NeverBack(s, es) <==> NoneBetween(s, es)
  {
    if es != [] {
      RunsGoBackExactlyWhenBetween(s, es[..|es| - 1]);
      LastStepBackExactlyWhenBetween(s, es);
    }
  }

  /** Then they are not behind those of any earlier moment, also across sessions. */
  lemma {:induction false} NeverBackMeansNotBehind(s: State, es: seq<Event>, i: nat)
    requires Legal(s, es) && NeverBack(s, es) && i <= |es|
    ensures Legal(s, es[..i]) && NotBehind(LastHeld(s, es[..i]), LastHeld(s, es))
    decreases |es|
  {
    if i == |es| {
      assert es[..i] == es;
    } else {
      var before := es[..|es| - 1];
      assert before[..i] == es[..i];
      NeverBackMeansNotBehind(s, before, i);
    }
  }

  lemma PromptIsNotBetween(s: State, e: Event)
    requires Sound(s) && Enabled(s, e) && Prompt(s, e)
    ensures !IsBetween(s, e)
  {
    if e.Arrive? { assert s.requests[e.request] in s.requests && RequestOk(s, s.requests[e.request]); }
  }

  /**
   * If every bound response arrives at most one restart after its origin, the
   * tokens the client holds never go back, for any order of arrival, however
   * late the unbound responses are, and not even by way of a new session.
   */
  lemma {:induction false} PromptRunsNeverGoBack(s: State, es: seq<Event>)
    requires Sound(s) && Legal(s, es) && AllPrompt(s, es)
    ensures NeverBack(s, es)
    ensures s.client.held.Some? ==> NeverBefore(s.client.held.value, Run(s, es))
  {
    RunsGoBackExactlyWhenBetween(s, es);
    if es != [] {
      var before, e := es[..|es| - 1], es[|es| - 1];
      PromptRunsNeverGoBack(s, before);
      RunsGoBackExactlyWhenBetween(s, before);
      EveryRunIsSound(s, before);
      PromptIsNotBetween(Run(s, before), e);
      if s.client.held.Some? { StepNeverGoesBack(s.client.held.value, Run(s, before), e); }
    }
  }

  const Init := State(Client(0, true, None), [0], [])

  /** One more event of a run from `Init`. */
  lemma Then(es: seq<Event>, s: State, e: Event) returns (longer: seq<Event>, t: State)
    requires Legal(Init, es) && Run(Init, es) == s && Enabled(s, e)
    ensures Legal(Init, longer) && Run(Init, longer) == t == Apply(s, e)
  {
    longer, t := es + [e], Apply(s, e);
    assert longer[..|longer| - 1] == es;
  }

  ghost predicate GoesBack(es: seq<Event>, i: nat) {
    && Legal(Init, es) && Enabled(Run(Init, es), Arrive(i))
    && !NotBehind(Run(Init, es).client.held, Apply(Run(Init, es), Arrive(i)).client.held)
  }

  /** The first response loads the tokens of process 0. */
  lemma FirstResponse() returns (es: seq<Event>)
    ensures Legal(Init, es)
    ensures Run(Init, es) == State(Client(0, true, Some(Tokens(0, 0))), [0], [Answered(None, 0)])
  {
    var s := Init;
    es, s := Then([], s, Dispatch);
    es, s := Then(es, s, Serve(0, true));
    assert s.requests == [Answered(None, 0)];
    es, s := Then(es, s, Arrive(0));
  }

  /** Then two requests are bound to it. */
  lemma TwoBoundRequests() returns (es: seq<Event>)
    ensures Legal(Init, es)
    ensures Run(Init, es) == State(Client(0, true, Some(Tokens(0, 0))), [0], [Answered(None, 0), BOUND, BOUND])
  {
    var s;
    es := FirstResponse();
    es, s := Then(es, Run(Init, es), Dispatch);
    es, s := Then(es, s, Dispatch);
  }

  const BOUND := Request(0, Some(0), None)

  function Answered(origin: Option<nat>, server: nat): Request {
    Request(0, origin, Some(Reply(server, Some(Tokens(server, 0)))))
  }

  /** Processes 1 and 2 answer one each. */
  lemma TwoAnswers() returns (es: seq<Event>)
    ensures Legal(Init, es)
    ensures Run(Init, es) == State(Client(0, true, Some(Tokens(0, 0))), [0, 0, 0],
                                   [Answered(None, 0), Answered(Some(0), 1), Answered(Some(0), 2)])
  {
    var s;
    es := TwoBoundRequests();
    es, s := Then(es, Run(Init, es), Restart(0));
    es, s := Then(es, s, Serve(1, true));
    assert s.requests == [Answered(None, 0), Answered(Some(0), 1), BOUND];
    es, s := Then(es, s, Restart(0));
    assert s.revisions == [0, 0, 0];
    es, s := Then(es, s, Serve(2, true));
  }

  /**
   * One restart more, and they can: of two requests bound to process 0, the one
   * process 2 answers arrives before the one process 1 answered.
   */
  lemma TwoRestartsCanGoBack()
    ensures exists es, i: nat ::
              && GoesBack(es, i)
              && Run(Init, es).requests[i].origin == Some(0) && Server(Run(Init, es)) == 2
  {
    var es := TwoAnswers();
    var s;
    es, s := Then(es, Run(Init, es), Arrive(2));
    assert GoesBack(es, 1);
  }

  /**
   * What the client holds after any answer to its own session: the newer
   * revision of the process it holds, or the other process exactly as it was
   * answered if the request was bound to a third one, or what it held.
   */
  lemma PublishedExactly<P>(client: Client<P>, incoming: Tokens<P>, origin: Option<P>)
    requires client.attached
    ensures Publish(client, Some(incoming), client.epoch, origin) == client.(held :=
      if client.held.None? then Some(incoming)
      else if client.held.value.process == incoming.process then
        Some(Tokens(incoming.process, if incoming.revision > client.held.value.revision then incoming.revision else client.held.value.revision))
      else if origin.Some? && origin.value != incoming.process then Some(incoming)
      else client.held)
  {
  }

  /** Answer `i` is of this session and names the process that gave it. */
  predicate Publishable(s: State, i: nat)
    requires Enabled(s, Arrive(i))
  {
    s.client.attached && s.requests[i].epoch == s.client.epoch && s.requests[i].reply.value.tokens.Some?
  }

  /** The client follows a process, whichever answered, exactly when it holds none or that one, or the request was bound before it. */
  lemma CatchesUp(s: State, i: nat)
    requires Sound(s) && Enabled(s, Arrive(i)) && Publishable(s, i)
    ensures Apply(s, Arrive(i)).client.held.Some?
    ensures var p := s.requests[i].reply.value.server;
      Apply(s, Arrive(i)).client.held.value.process == p <==>
        s.client.held.None? || s.client.held.value.process == p
        || (s.requests[i].origin.Some? && s.requests[i].origin.value < p)
  {
    assert RequestOk(s, s.requests[i]) by { assert s.requests[i] in s.requests; }
  }

  /** What was taken stays: without an arrival from in between, no later moment is behind the tokens the answer brought. */
  lemma TakenForGood(s: State, i: nat, es: seq<Event>)
    requires Sound(s) && Enabled(s, Arrive(i)) && Publishable(s, i)
    requires s.client.held.None? || s.client.held.value.process == s.requests[i].reply.value.server
      || (s.requests[i].origin.Some? && s.requests[i].origin.value < s.requests[i].reply.value.server)
    requires Legal(Apply(s, Arrive(i)), es) && NoneBetween(Apply(s, Arrive(i)), es)
    ensures NotBehind(s.requests[i].reply.value.tokens, LastHeld(Apply(s, Arrive(i)), es))
  {
    var t := Apply(s, Arrive(i));
    StepIsSound(s, Arrive(i));
    RunsGoBackExactlyWhenBetween(t, es);
    NeverBackMeansNotBehind(t, es, 0);
    assert RequestOk(s, s.requests[i]) by { assert s.requests[i] in s.requests; }
    PublishedExactly(s.client, s.requests[i].reply.value.tokens.value, s.requests[i].origin);
    assert es[..0] == [];
  }

  // ---- Replaced sessions and signals ---------------------------------------------------

  /** A response to a request from before a sink replacement changes nothing, whenever it arrives. */
  lemma {:induction false} ReplacedSessionsNeverPublish(s: State, es: seq<Event>, i: nat)
    requires Sound(s) && Legal(s, es) && i < |s.requests|
    ensures i < |Run(s, es).requests| && Run(s, es).requests[i].epoch == s.requests[i].epoch <= s.client.epoch <= Run(s, es).client.epoch
    ensures (exists k :: 0 <= k < |es| && es[k].SetSink?) ==> Run(s, es).requests[i].epoch < Run(s, es).client.epoch
    ensures (exists k :: 0 <= k < |es| && es[k].SetSink?) && Enabled(Run(s, es), Arrive(i)) ==>
      Apply(Run(s, es), Arrive(i)) == Run(s, es)
  {
    assert RequestOk(s, s.requests[i]);
    if es != [] {
      var before := es[..|es| - 1];
      ReplacedSessionsNeverPublish(s, before, i);
      forall k | 0 <= k < |es| && es[k].SetSink? ensures Run(s, es).requests[i].epoch < Run(s, es).client.epoch {
        if k < |before| { assert before[k].SetSink?; }
      }
    }
  }

  /**
   * A 401 or 410 notification never comes from a process older than the one the
   * client holds; and the process it holds can always notify by naming itself.
   */
  lemma SignalsAreNotFromThePast(s: State, i: nat, named: bool)
    requires Sound(s) && Enabled(s, Arrive(i))
    ensures var r := s.requests[i];
      var emits := MayEmit(s.client, r.epoch, r.origin, if named then Some(r.reply.value.server) else None);
      && (emits ==> r.epoch == s.client.epoch)
      && (emits && Observed(s.client).Some? ==> Observed(s.client).value <= r.reply.value.server)
      && (r.epoch == s.client.epoch && named && Observed(s.client) == Some(r.reply.value.server) ==> emits)
  {
    assert RequestOk(s, s.requests[i]) by { assert s.requests[i] in s.requests; }
  }

  /**
   * Exactly when a 401 or 410 notifies: in its own session, if the process at
   * dispatch is still the one held (also when the answer names none), or if the
   * answer names the one held.
   */
  lemma EmitsExactly<P>(client: Client<P>, epoch: nat, origin: Option<P>, incoming: Option<P>)
    ensures MayEmit(client, epoch, origin, incoming) <==>
      && epoch == client.epoch
      && (if client.attached && client.held.Some?
          then Some(client.held.value.process) in {origin, incoming}
          else origin.None?)
  {
  }

  // ---- The transport and the store as objects ------------------------------------------

  /** The module state of dashboard-v3.ts together with the store it publishes to. */
  class ControlPlane<P(==)> {
    var controlRevisionEpoch: nat
    var sinkRegistered: bool
    var revision: Option<int>
    var processGeneration: Option<P>
    var backendEpoch: nat

    ghost predicate Valid()
      reads this
    {
      revision.Some? <==> processGeneration.Some?
    }

    ghost function View(): Client<P>
      requires Valid()
      reads this
    {
      Client(controlRevisionEpoch, sinkRegistered,
             if revision.Some? then Some(Tokens(processGeneration.value, revision.value)) else None)
    }

    /** A new store registers itself. */
    constructor ()
      ensures Valid() && View() == Client(1, true, None)
    {
      controlRevisionEpoch, sinkRegistered := 1, true;
      revision, processGeneration, backendEpoch := None, None, 0;
    }

    function ObservedProcess(): (r: Option<P>)
      requires Valid()
      reads this
      ensures r == Observed(View())
    {
      if sinkRegistered then processGeneration else None
    }

    /** What a request captures before it leaves. */
    method Dispatch() returns (epoch: nat, origin: Option<P>)
      requires Valid()
      ensures epoch == controlRevisionEpoch && origin == if sinkRegistered then processGeneration else None
    {
      epoch, origin := controlRevisionEpoch, ObservedProcess();
    }

    method SetControlRevisionSink(registered: bool)
      requires Valid()
      modifies this`controlRevisionEpoch, this`sinkRegistered
      ensures Valid() && controlRevisionEpoch == old(controlRevisionEpoch) + 1 && sinkRegistered == registered
    {
      controlRevisionEpoch := controlRevisionEpoch + 1;
      sinkRegistered := registered;
    }

    method Reset()
      requires Valid()
      modifies this`controlRevisionEpoch, this`sinkRegistered, this`revision, this`processGeneration
      ensures Valid() && View() == Register(old(View()), true)
      ensures controlRevisionEpoch == old(controlRevisionEpoch) + 1 && sinkRegistered && revision.None? && processGeneration.None?
    {
      SetControlRevisionSink(true);
      revision, processGeneration := None, None;
    }

    method PublishTokens(tokens: Option<Tokens<P>>, epoch: nat, origin: Option<P>)
      requires Valid()
      modifies this`revision, this`processGeneration, this`backendEpoch
      ensures Valid() && View() == Publish(old(View()), tokens, epoch, origin)
      ensures backendEpoch == old(backendEpoch) + if Moved(old(View()).held, View().held) then 1 else 0
    {
      if epoch != controlRevisionEpoch || !sinkRegistered { return; }
      if tokens.None? { return; }
      if !MayPublish(origin, ObservedProcess(), tokens.value.process) { return; }
      Sync(tokens.value);
    }

    /** The store's own rule; queued writes notice a change of process by `backendEpoch`. */
    method Sync(tokens: Tokens<P>)
      requires Valid()
      modifies this`revision, this`processGeneration, this`backendEpoch
      ensures Valid() && View() == old(View()).(held := Synced(old(View()).held, tokens))
      ensures processGeneration == Some(tokens.process)
      ensures revision == Some(
        if old(processGeneration) == Some(tokens.process) && old(revision).value > tokens.revision
        then old(revision).value else tokens.revision)
      ensures backendEpoch == old(backendEpoch) + if Moved(old(View()).held, View().held) then 1 else 0
    {
      if processGeneration == Some(tokens.process) && revision.Some? && tokens.revision < revision.value { return; }
      if processGeneration.Some? && Some(tokens.process) != processGeneration {
        backendEpoch := backendEpoch + 1;
      }
      revision, processGeneration := Some(tokens.revision), Some(tokens.process);
    }
  }

  /** The tokens held now are of another process than those held before. */
  predicate Moved<P(==)>(before: Option<Tokens<P>>, after: Option<Tokens<P>>) {
    before.Some? && after.Some? && before.value.process != after.value.process
  }
}
