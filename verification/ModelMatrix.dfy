/**
 * The model matrix: a destination's catalog projected to contract rows
 * (src/domain/destination-catalog.ts), the toggle batch built from the rows
 * (src/domain/provider-contracts.ts), the batch translated to catalog updates,
 * and the updates applied by the gateway (dashboard_v4/destination_catalog.rs).
 */
module ModelMatrix {
  import opened Lists

  datatype Protocol = ChatCompletions | Responses | Messages

  const PROVIDER_PROTOCOLS: seq<Protocol> := [ChatCompletions, Responses, Messages]

  datatype LegacyKind = CustomAccount | Dynamic | PlatformParent | OtherLegacy

  datatype Model = Model(
    publicModel: string, enabled: bool, protocols: seq<Protocol>,
    preferred: Option<Protocol>, upstreamOverride: Option<Protocol>)

  /**
   * `http` and `observer` are the adapter kind and the capability; `routes` are the explicit routes' protocols;
   * `usableBaseUrl` is the gateway's check of a platform's base URL.
   */
  datatype Destination = Destination(
    legacy: LegacyKind, http: bool, observer: bool, routes: seq<Protocol>, protocols: seq<Protocol>,
    usableBaseUrl: bool, catalog: seq<Model>)

  datatype Evidence = Evidence(available: bool, enabled: bool)
  datatype Contract = Contract(modelId: string, preferred: Protocol, protocols: map<Protocol, Evidence>, routable: bool)
  datatype ScopeKind = CustomEndpoint | Provider
  datatype Scope = Scope(kind: ScopeKind, models: seq<Contract>)

  datatype OverrideState = ForceOn | ForceOff | Auto
  datatype Override = Override(modelId: string, protocol: Protocol, state: OverrideState, preferred: bool)
  datatype Update = Update(publicModel: string, enabled: bool, protocols: seq<Protocol>, preferred: Option<Protocol>)

  // ---- Projection -------------------------------------------------------------------

  function ConfiguredRoutes(d: Destination): seq<Protocol> {
    if |d.routes| > 0 then d.routes else d.protocols
  }

  method DestinationConfiguredProtocols(d: Destination) returns (protocols: seq<Protocol>)
    ensures protocols == Unique(if |d.routes| > 0 then d.routes else d.protocols)
  {
    var routes := ConfiguredRoutes(d);
    var seen: set<Protocol> := {};
    protocols := [];
    for i := 0 to |routes|
      invariant protocols == Unique(routes[..i]) && forall p :: p in seen <==> p in protocols
    {
      assert routes[..i + 1][..i] == routes[..i];
      if routes[i] in seen { continue; }
      seen := seen + {routes[i]};
      protocols := protocols + [routes[i]];
    }
    assert routes[..|routes|] == routes;
  }

  function Available(d: Destination, m: Model): (r: seq<Protocol>)
    ensures Distinct(r)
  {
    if m.upstreamOverride.Some? then [m.upstreamOverride.value] else Unique(ConfiguredRoutes(d))
  }

  function PreferredOf(m: Model, available: seq<Protocol>): Option<Protocol> {
    if m.preferred.Some? && m.preferred.value in available then m.preferred
    else if |available| > 0 then Some(available[0])
    else m.preferred
  }

  function Slot(d: Destination, m: Model, p: Protocol): Option<Evidence> {
    if p in Available(d, m) then Some(Evidence(true, m.enabled && p in m.protocols))
    else if d.legacy == CustomAccount || d.legacy == Dynamic then Some(Evidence(false, false))
    else None
  }

  function ProjectedModel(d: Destination, m: Model): Contract {
    var available := Available(d, m);
    var preferred := PreferredOf(m, available);
    Contract(m.publicModel,
      if preferred.Some? then preferred.value else ChatCompletions,
      map p | p in PROVIDER_PROTOCOLS && Slot(d, m, p).Some? :: Slot(d, m, p).value,
      m.enabled && exists i :: 0 <= i < |available| && available[i] in m.protocols)
  }

  method ProjectModel(d: Destination, m: Model) returns (c: Contract)
    ensures c == ProjectedModel(d, m)
  {
    var available := Available(d, m);
    var protocols: map<Protocol, Evidence> := map[];
    for k := 0 to |PROVIDER_PROTOCOLS|
      invariant forall p :: p in protocols <==> p in PROVIDER_PROTOCOLS[..k] && Slot(d, m, p).Some?
      invariant forall p :: p in protocols ==> protocols[p] == Slot(d, m, p).value
    {
      var protocol := PROVIDER_PROTOCOLS[k];
      assert PROVIDER_PROTOCOLS[..k + 1] == PROVIDER_PROTOCOLS[..k] + [protocol];
      var isAvailable := protocol in available;
      if !isAvailable && d.legacy != CustomAccount && d.legacy != Dynamic { continue; }
      if !isAvailable {
        protocols := protocols[protocol := Evidence(false, false)];
        continue;
      }
      protocols := protocols[protocol := Evidence(true, m.enabled && protocol in m.protocols)];
    }
    var preferred := PreferredOf(m, available);
    c := Contract(m.publicModel, if preferred.Some? then preferred.value else ChatCompletions, protocols,
      m.enabled && exists i :: 0 <= i < |available| && available[i] in m.protocols);
    assert protocols == map p | p in PROVIDER_PROTOCOLS && Slot(d, m, p).Some? :: Slot(d, m, p).value;
  }

  function ProjectDestinationCatalog(d: Destination): Scope {
    Scope(CustomEndpoint, seq(|d.catalog|, i requires 0 <= i < |d.catalog| => ProjectedModel(d, d.catalog[i])))
  }

  // ---- Toggling ------------------------------------------------------------------------

  predicate IsAvailable(c: Contract, p: Protocol) { p in c.protocols && c.protocols[p].available }
  predicate IsEnabled(c: Contract, p: Protocol) { p in c.protocols && c.protocols[p].enabled }

  predicate IsWritable(c: Contract, kind: ScopeKind, p: Protocol) {
    if kind == CustomEndpoint then IsAvailable(c, p) else p in c.protocols
  }

  predicate ModelEffectiveOn(c: Contract) {
    exists p :: p in PROVIDER_PROTOCOLS && IsEnabled(c, p)
  }

  function Pick<T(!new)>(s: seq<T>, keep: T -> bool): (r: seq<T>)
    ensures forall x :: x in r <==> x in s && keep(x)
    ensures Distinct(s) ==> Distinct(r)
  {
    if s == [] then []
    else
      assert forall i, j :: 0 <= i < j < |s[1..]| ==> s[1..][i] == s[i + 1] && s[1..][j] == s[j + 1];
      (if keep(s[0]) then [s[0]] else []) + Pick(s[1..], keep)
  }

  function WritableProtocols(c: Contract, kind: ScopeKind): seq<Protocol> {
    Pick(PROVIDER_PROTOCOLS, p => IsWritable(c, kind, p))
  }

  /** The available preferred protocol, else the first available one. */
  function AvailableTarget(c: Contract): Option<Protocol> {
    if IsAvailable(c, c.preferred) then Some(c.preferred)
    else
      var available := Pick(PROVIDER_PROTOCOLS, p => IsAvailable(c, p));
      if |available| > 0 then Some(available[0]) else None
  }

  function PreferredStamp(c: Contract, kind: ScopeKind): Option<Protocol> {
    if kind != Provider then None
    else if c.preferred in WritableProtocols(c, kind) then Some(c.preferred)
    else AvailableTarget(c)
  }

  function ContractAt(models: seq<Contract>, id: string): Option<Contract> {
    if models == [] then None else if models[0].modelId == id then Some(models[0]) else ContractAt(models[1..], id)
  }

  /** The protocols one model's toggle writes. */
  function Targets(c: Contract, kind: ScopeKind, on: bool): seq<Protocol> {
    if on then Pick(PROVIDER_PROTOCOLS, p => IsAvailable(c, p) && IsWritable(c, kind, p)) else WritableProtocols(c, kind)
  }

  function RowsFor(c: Contract, id: string, kind: ScopeKind, on: bool): seq<Override> {
    Rows(id, Targets(c, kind, on), if on then ForceOn else ForceOff, if on then None else PreferredStamp(c, kind))
  }

  function Rows(id: string, targets: seq<Protocol>, state: OverrideState, stamp: Option<Protocol>): seq<Override> {
    if targets == [] then []
    else
      var last := targets[|targets| - 1];
      Rows(id, targets[..|targets| - 1], state, stamp) + [Override(id, last, state, stamp == Some(last))]
  }

  function ToggleOverrides(scope: Scope, ids: seq<string>, on: bool): seq<Override> {
    if ids == [] then []
    else
      var id := ids[|ids| - 1];
      var c := ContractAt(scope.models, id);
      ToggleOverrides(scope, ids[..|ids| - 1], on) + if c.None? then [] else RowsFor(c.value, id, scope.kind, on)
  }

  method BuildModelToggleOverrides(scope: Scope, ids: seq<string>, on: bool) returns (overrides: seq<Override>)
    ensures overrides == ToggleOverrides(scope, ids, on)
  {
    overrides := [];
    for k := 0 to |ids|
      invariant overrides == ToggleOverrides(scope, ids[..k], on)
    {
      assert ids[..k + 1][..k] == ids[..k];
      var model := ContractAt(scope.models, ids[k]);
      if model.None? { continue; }
      var targets := Targets(model.value, scope.kind, on);
      var state, stamp := if on then ForceOn else ForceOff, if on then None else PreferredStamp(model.value, scope.kind);
      var rows := BuildRows(ids[k], targets, state, stamp);
      overrides := overrides + rows;
    }
    assert ids[..|ids|] == ids;
  }

  method BuildRows(id: string, targets: seq<Protocol>, state: OverrideState, stamp: Option<Protocol>) returns (rows: seq<Override>)
    ensures rows == Rows(id, targets, state, stamp)
  {
    rows := [];
    for j := 0 to |targets|
      invariant rows == Rows(id, targets[..j], state, stamp)
    {
      assert targets[..j + 1][..j] == targets[..j];
      rows := rows + [Override(id, targets[j], state, stamp == Some(targets[j]))];
    }
    assert targets[..|targets|] == targets;
  }

  // ---- Translation ------------------------------------------------------------------------

  function ModelAt(catalog: seq<Model>, name: string): Option<Model> {
    if catalog == [] then None else if catalog[0].publicModel == name then Some(catalog[0]) else ModelAt(catalog[1..], name)
  }

  function EnabledBefore(m: Model, available: seq<Protocol>): set<Protocol> {
    if m.enabled then set p | p in m.protocols && p in available else {}
  }

  /** The enabled set and the preferred protocol after a model's rows, in order. */
  function AfterRows(rows: seq<Override>, available: seq<Protocol>, enabled: set<Protocol>, preferred: Option<Protocol>)
    : (set<Protocol>, Option<Protocol>)
  {
    if rows == [] then (enabled, preferred)
    else
      var (e, p) := AfterRows(rows[..|rows| - 1], available, enabled, preferred);
      var row := rows[|rows| - 1];
      if row.protocol !in available then (e, p)
      else
        (match row.state case ForceOn => e + {row.protocol} case ForceOff => e - {row.protocol} case Auto => e,
         if row.preferred then Some(row.protocol) else p)
  }

  function UpdateFor(d: Destination, m: Model, rows: seq<Override>): Update {
    var available := Available(d, m);
    var (enabled, preferred) := AfterRows(rows, available, EnabledBefore(m, available), PreferredOf(m, available));
    var protocols := Pick(available, p => p in enabled);
    Update(m.publicModel, |protocols| > 0, protocols,
      if |protocols| > 0 && (preferred.None? || preferred.value !in protocols) then Some(protocols[0]) else preferred)
  }

  function RowsOf(overrides: seq<Override>, id: string): seq<Override> {
    Pick(overrides, (o: Override) => o.modelId == id)
  }

  function IdsOf(overrides: seq<Override>): (r: seq<string>)
    ensures |r| == |overrides| && forall i :: 0 <= i < |r| ==> r[i] == overrides[i].modelId
  {
    seq(|overrides|, i requires 0 <= i < |overrides| => overrides[i].modelId)
  }

  /** One update per known model, in order of first mention. */
  function UpdatesFor(d: Destination, overrides: seq<Override>, names: seq<string>): seq<Update> {
    if names == [] then []
    else
      var name := names[|names| - 1];
      var m := ModelAt(d.catalog, name);
      UpdatesFor(d, overrides, names[..|names| - 1])
      + if m.None? then [] else [UpdateFor(d, m.value, RowsOf(overrides, name))]
  }

  method ApplyRows(rows: seq<Override>, available: seq<Protocol>, before: set<Protocol>, preferredBefore: Option<Protocol>)
    returns (enabled: set<Protocol>, preferred: Option<Protocol>)
    ensures (enabled, preferred) == AfterRows(rows, available, before, preferredBefore)
  {
    enabled, preferred := before, preferredBefore;
    for j := 0 to |rows|
      invariant (enabled, preferred) == AfterRows(rows[..j], available, before, preferredBefore)
    {
      assert rows[..j + 1][..j] == rows[..j];
      var row := rows[j];
      if row.protocol !in available { continue; }
      if row.state == ForceOn { enabled := enabled + {row.protocol}; }
      if row.state == ForceOff { enabled := enabled - {row.protocol}; }
      if row.preferred { preferred := Some(row.protocol); }
    }
    assert rows[..|rows|] == rows;
  }

  method CatalogUpdatesFromOverrides(d: Destination, overrides: seq<Override>) returns (updates: seq<Update>)
    ensures updates == UpdatesFor(d, overrides, Unique(IdsOf(overrides)))
  {
    var names := Unique(IdsOf(overrides));
    updates := [];
    for k := 0 to |names|
      invariant updates == UpdatesFor(d, overrides, names[..k])
    {
      assert names[..k + 1][..k] == names[..k];
      var rows := RowsOf(overrides, names[k]);
      var model := ModelAt(d.catalog, names[k]);
      if model.None? { continue; }
      var m := model.value;
      var available := Available(d, m);
      var enabled, preferred := ApplyRows(rows, available, EnabledBefore(m, available), PreferredOf(m, available));
      ghost var fromModel := ModelNamed(d.catalog, names[k]);
      var protocols := Pick(available, p => p in enabled);
      if |protocols| > 0 && (preferred.None? || preferred.value !in protocols) { preferred := Some(protocols[0]); }
      updates := updates + [Update(names[k], |protocols| > 0, protocols, preferred)];
    }
    assert names[..|names|] == names;
  }

  lemma {:induction false} ModelNamed(catalog: seq<Model>, name: string) returns (i: nat)
    ensures ModelAt(catalog, name).Some? ==> i < |catalog| && catalog[i] == ModelAt(catalog, name).value && catalog[i].publicModel == name
    ensures ModelAt(catalog, name).Some? ==> forall j :: 0 <= j < i ==> catalog[j].publicModel != name
    ensures ModelAt(catalog, name).None? ==> forall j :: 0 <= j < |catalog| ==> catalog[j].publicModel != name
  {
    i := 0;
    if catalog != [] && catalog[0].publicModel != name {
      var k := ModelNamed(catalog[1..], name);
      i := k + 1;
    }
  }
}
