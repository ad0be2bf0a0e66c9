/**
 * A toggle from end to end: project the catalog, build the batch, translate
 * it, let the gateway apply it, and project again.
 */
module MatrixToggle {
  import opened Lists
  import opened ModelMatrix

  const MAX_CATALOG_UPDATES := 2000

  // ---- The gateway -------------------------------------------------------------------

  /** http_model_protocols; a platform with an unusable base URL and no explicit routes has none. */
  function GatewayAvailable(d: Destination, m: Model): seq<Protocol> {
    if m.upstreamOverride.Some? then [m.upstreamOverride.value]
    else if |d.routes| > 0 then d.routes
    else if d.legacy == PlatformParent && !d.usableBaseUrl then []
    else d.protocols
  }

  /** What apply_updates does to the model an update names, or None for its error returns. */
  ghost function ApplyUpdate(m: Model, u: Update, available: seq<Protocol>): Option<Model> {
    if !Distinct(u.protocols) || exists p :: p in u.protocols && p !in available then None
    else if u.preferred.Some? && u.preferred.value !in available then None
    else
      var m := m.(protocols := u.protocols, preferred := if u.preferred.Some? then u.preferred else m.preferred, enabled := u.enabled);
      if m.enabled && |m.protocols| == 0 then None
      else if m.enabled && (m.preferred.None? || m.preferred.value !in m.protocols) then
        if u.preferred.Some? then None else Some(m.(preferred := Some(m.protocols[0])))
      else Some(m)
  }

  /** Names are compared through `lower` (to_ascii_lowercase) and, for the update, `key` (trimmed first). */
  function FindLower(lower: string -> string, catalog: seq<Model>, key: string): (i: nat)
    ensures i <= |catalog|
    ensures i < |catalog| ==> lower(catalog[i].publicModel) == key
    ensures forall j :: 0 <= j < i ==> lower(catalog[j].publicModel) != key
  {
    if catalog == [] || lower(catalog[0].publicModel) == key then 0 else 1 + FindLower(lower, catalog[1..], key)
  }

  ghost function ApplyUpdates(lower: string -> string, key: string -> string, d: Destination, updates: seq<Update>): Option<seq<Model>> {
    if updates == [] then Some(d.catalog)
    else
      var front, u := updates[..|updates| - 1], updates[|updates| - 1];
      var catalog := ApplyUpdates(lower, key, d, front);
      if catalog.None? || exists j :: 0 <= j < |front| && key(front[j].publicModel) == key(u.publicModel) then None
      else
        var i := FindLower(lower, catalog.value, key(u.publicModel));
        if i == |catalog.value| then None
        else
          var m := ApplyUpdate(catalog.value[i], u, GatewayAvailable(d, catalog.value[i]));
          if m.None? then None else Some(catalog.value[i := m.value])
  }

  /** Only an HTTP destination that is no observer has a catalog to edit; dashboard and gateway both ask this. */
  predicate Editable(d: Destination) {
    d.http && !d.observer
  }

  ghost function GatewayApply(lower: string -> string, key: string -> string, d: Destination, updates: seq<Update>): Option<seq<Model>> {
    if !Editable(d) || |updates| > MAX_CATALOG_UPDATES then None else ApplyUpdates(lower, key, d, updates)
  }

  /** What the gateway keeps of every destination: a platform parent is an observer, and the catalog is well named. */
  ghost predicate WellKept(lower: string -> string, key: string -> string, d: Destination) {
    (d.legacy == PlatformParent ==> d.observer) && WellNamed(lower, key, d)
  }

  /** Names are trimmed, and distinct when lower-cased. */
  ghost predicate WellNamed(lower: string -> string, key: string -> string, d: Destination) {
    && (forall i :: 0 <= i < |d.catalog| ==> key(d.catalog[i].publicModel) == lower(d.catalog[i].publicModel))
    && forall i, j :: 0 <= i < j < |d.catalog| ==> lower(d.catalog[i].publicModel) != lower(d.catalog[j].publicModel)
  }

  // ---- What a toggle is meant to do -----------------------------------------------------

  function Toggled(d: Destination, m: Model, on: bool): Model {
    var available := Available(d, m);
    if |available| == 0 then m
    else m.(enabled := on, protocols := if on then available else [], preferred := PreferredOf(m, available))
  }

  function ToggledCatalog(d: Destination, names: set<string>, on: bool): seq<Model> {
    seq(|d.catalog|, i requires 0 <= i < |d.catalog| =>
      if d.catalog[i].publicModel in names then Toggled(d, d.catalog[i], on) else d.catalog[i])
  }

  /** The catalog update a toggle of this model amounts to. */
  function ToggleUpdate(d: Destination, m: Model, on: bool): Update {
    var available := Available(d, m);
    Update(m.publicModel, on, if on then available else [], PreferredOf(m, available))
  }

  /** A toggled model reads as on exactly when it was switched on. */
  lemma ToggledReadsBack(d: Destination, m: Model, on: bool)
    requires |Available(d, m)| > 0
    ensures ModelEffectiveOn(ProjectedModel(d, Toggled(d, m, on))) == on
  {
    var c := ProjectedModel(d, Toggled(d, m, on));
    var p := Available(d, m)[0];
    EveryProtocolIsListed(p);
    if on { assert IsEnabled(c, p); }
  }

  lemma EveryProtocolIsListed(p: Protocol)
    ensures p in PROVIDER_PROTOCOLS
  {
    match p {
      case ChatCompletions => assert PROVIDER_PROTOCOLS[0] == p;
      case Responses => assert PROVIDER_PROTOCOLS[1] == p;
      case Messages => assert PROVIDER_PROTOCOLS[2] == p;
    }
  }

  /** Off then on, for one model: every available protocol is enabled and the preferred one shown is kept. */
  lemma ModelOffThenOn(d: Destination, m: Model)
    requires |Available(d, m)| > 0
    ensures var back := ProjectedModel(d, Toggled(d, Toggled(d, m, false), true));
      && (forall p :: p in Available(d, m) ==> IsEnabled(back, p))
      && back.preferred == ProjectedModel(d, m).preferred
      && ProjectedModel(d, Toggled(d, m, false)).preferred == ProjectedModel(d, m).preferred
  {
    assert Available(d, m)[0] in Available(d, m);
    forall p | p in Available(d, m) ensures p in PROVIDER_PROTOCOLS { EveryProtocolIsListed(p); }
  }

  // ---- The rows of a batch ------------------------------------------------------------------

  lemma {:induction false} RowMembers(id: string, targets: seq<Protocol>, state: OverrideState, stamp: Option<Protocol>)
    ensures forall r :: r in Rows(id, targets, state, stamp) <==>
      r.modelId == id && r.state == state && r.protocol in targets && r.preferred == (stamp == Some(r.protocol))
  {
    if targets != [] {
      RowMembers(id, targets[..|targets| - 1], state, stamp);
      assert targets == targets[..|targets| - 1] + [targets[|targets| - 1]];
    }
  }

  lemma {:induction false} ContractOfModel(d: Destination, catalog: seq<Model>, models: seq<Contract>, id: string)
    requires |models| == |catalog| && forall i :: 0 <= i < |catalog| ==> models[i] == ProjectedModel(d, catalog[i])
    ensures ContractAt(models, id)
      == if ModelAt(catalog, id).None? then None else Some(ProjectedModel(d, ModelAt(catalog, id).value))
  {
    if catalog != [] { ContractOfModel(d, catalog[1..], models[1..], id); }
  }

  /** A row of the batch that is about model `id`. */
  predicate IsToggleRow(d: Destination, r: Override, on: bool) {
    var m := ModelAt(d.catalog, r.modelId);
    m.Some? && r.protocol in Available(d, m.value) && r.state == (if on then ForceOn else ForceOff) && !r.preferred
  }

  lemma TargetsAreAvailable(d: Destination, m: Model, on: bool)
    ensures forall p :: p in Targets(ProjectedModel(d, m), CustomEndpoint, on) <==> p in Available(d, m)
  {
    forall p ensures p in Targets(ProjectedModel(d, m), CustomEndpoint, on) <==> p in Available(d, m) {
      TargetIsAvailable(d, m, on, p);
    }
  }

  lemma TargetIsAvailable(d: Destination, m: Model, on: bool, p: Protocol)
    ensures p in Targets(ProjectedModel(d, m), CustomEndpoint, on) <==> p in Available(d, m)
  {
    AvailableIsShown(d, m, p);
    EveryProtocolIsListed(p);
    var c := ProjectedModel(d, m);
    assert IsWritable(c, CustomEndpoint, p) == IsAvailable(c, p);
  }

  lemma AvailableIsShown(d: Destination, m: Model, p: Protocol)
    ensures IsAvailable(ProjectedModel(d, m), p) <==> p in Available(d, m)
  {
    EveryProtocolIsListed(p);
  }

  lemma RowsOfOne(d: Destination, id: string, on: bool)
    ensures var c := ContractAt(ProjectDestinationCatalog(d).models, id);
      forall r :: (c.Some? && r in RowsFor(c.value, id, CustomEndpoint, on)) <==> r.modelId == id && IsToggleRow(d, r, on)
  {
    ContractOfModel(d, d.catalog, ProjectDestinationCatalog(d).models, id);
    var m := ModelAt(d.catalog, id);
    if m.Some? {
      var c := ProjectedModel(d, m.value);
      assert PreferredStamp(c, CustomEndpoint) == None;
      TargetsAreAvailable(d, m.value, on);
      RowMembers(id, Targets(c, CustomEndpoint, on), if on then ForceOn else ForceOff, if on then None else PreferredStamp(c, CustomEndpoint));
    }
  }

  lemma {:induction false} BatchMembers(d: Destination, ids: seq<string>, on: bool)
    ensures forall r :: r in ToggleOverrides(ProjectDestinationCatalog(d), ids, on) <==> r.modelId in ids && IsToggleRow(d, r, on)
  {
    if ids != [] {
      var front, id := ids[..|ids| - 1], ids[|ids| - 1];
      BatchMembers(d, front, on);
      RowsOfOne(d, id, on);
      assert forall x :: x in ids <==> x in front || x == id;
    }
  }

  // ---- Translating the batch ------------------------------------------------------------------

  lemma {:induction false} RowsSwitchAll(rows: seq<Override>, available: seq<Protocol>, enabled: set<Protocol>, preferred: Option<Protocol>, on: bool)
    requires forall r :: r in rows ==> r.protocol in available && r.state == (if on then ForceOn else ForceOff) && !r.preferred
    ensures AfterRows(rows, available, enabled, preferred).1 == preferred
    ensures forall p :: p in AfterRows(rows, available, enabled, preferred).0 <==>
      if exists r :: r in rows && r.protocol == p then on else p in enabled
  {
    if rows != [] {
      var front, last := rows[..|rows| - 1], rows[|rows| - 1];
      assert rows == front + [last];
      RowsSwitchAll(front, available, enabled, preferred, on);
      assert forall r :: r in rows <==> r in front || r == last;
    }
  }

  lemma {:induction false} PickEverything<T(!new)>(s: seq<T>, keep: T -> bool)
    requires forall x :: x in s ==> keep(x)
    ensures Pick(s, keep) == s
  {
    if s != [] { PickEverything(s[1..], keep); }
  }

  lemma {:induction false} PickNothing<T(!new)>(s: seq<T>, keep: T -> bool)
    requires forall x :: x in s ==> !keep(x)
    ensures Pick(s, keep) == []
  {
    if s != [] { PickNothing(s[1..], keep); }
  }

  lemma ToggleRowsTranslate(d: Destination, m: Model, rows: seq<Override>, on: bool)
    requires |Available(d, m)| > 0
    requires forall r :: r in rows ==> r.protocol in Available(d, m) && r.state == (if on then ForceOn else ForceOff) && !r.preferred
    requires forall p :: p in Available(d, m) ==> exists r :: r in rows && r.protocol == p
    ensures UpdateFor(d, m, rows) == ToggleUpdate(d, m, on)
  {
    var available := Available(d, m);
    var (enabled, preferred) := AfterRows(rows, available, EnabledBefore(m, available), PreferredOf(m, available));
    RowsSwitchAll(rows, available, EnabledBefore(m, available), PreferredOf(m, available), on);
    if on {
      PickEverything(available, p => p in enabled);
      assert available[0] in available;
    } else {
      PickNothing(available, p => p in enabled);
    }
  }

  /** The names a batch toggles are those listed that are known and have some protocol available. */
  predicate Togglable(d: Destination, name: string) {
    ModelAt(d.catalog, name).Some? && |Available(d, ModelAt(d.catalog, name).value)| > 0
  }

  lemma BatchNames(d: Destination, ids: seq<string>, on: bool)
    ensures var overrides := ToggleOverrides(ProjectDestinationCatalog(d), ids, on);
      forall name :: name in Unique(IdsOf(overrides)) <==> name in ids && Togglable(d, name)
  {
    var overrides := ToggleOverrides(ProjectDestinationCatalog(d), ids, on);
    BatchMembers(d, ids, on);
    forall name | name in Unique(IdsOf(overrides)) ensures name in ids && Togglable(d, name) {
      assert name in IdsOf(overrides);
      var i :| 0 <= i < |overrides| && IdsOf(overrides)[i] == name;
      assert overrides[i] in overrides;
    }
    forall name | name in ids && Togglable(d, name) ensures name in Unique(IdsOf(overrides)) {
      var r := Override(name, Available(d, ModelAt(d.catalog, name).value)[0], if on then ForceOn else ForceOff, false);
      assert IsToggleRow(d, r, on) && r in overrides;
      var i :| 0 <= i < |overrides| && overrides[i] == r;
      assert IdsOf(overrides)[i] == name;
    }
  }

  function ToggleUpdates(d: Destination, names: seq<string>, on: bool): (updates: seq<Update>)
    requires forall name :: name in names ==> Togglable(d, name)
    ensures |updates| == |names|
  {
    if names == [] then []
    else
      var last := names[|names| - 1];
      assert last in names && Togglable(d, last);
      assert forall name :: name in names[..|names| - 1] ==> name in names;
      ToggleUpdates(d, names[..|names| - 1], on) + [ToggleUpdate(d, ModelAt(d.catalog, last).value, on)]
  }

  lemma {:induction false} UpdateNames(d: Destination, names: seq<string>, on: bool)
    requires forall name :: name in names ==> Togglable(d, name)
    ensures forall i :: 0 <= i < |names| ==> ToggleUpdates(d, names, on)[i].publicModel == names[i]
  {
    if names != [] {
      UpdateNames(d, names[..|names| - 1], on);
      assert names[|names| - 1] in names;
      var k := ModelNamed(d.catalog, names[|names| - 1]);
    }
  }

  lemma {:induction false} BatchTranslates(d: Destination, ids: seq<string>, on: bool, names: seq<string>)
    requires forall name :: name in names ==> name in ids && Togglable(d, name)
    ensures UpdatesFor(d, ToggleOverrides(ProjectDestinationCatalog(d), ids, on), names) == ToggleUpdates(d, names, on)
  {
    if names != [] {
      var front, name := names[..|names| - 1], names[|names| - 1];
      var overrides := ToggleOverrides(ProjectDestinationCatalog(d), ids, on);
      BatchTranslates(d, ids, on, front);
      assert name in names;
      OneTranslates(d, ids, on, name);
    }
  }

  lemma OneTranslates(d: Destination, ids: seq<string>, on: bool, name: string)
    requires name in ids && Togglable(d, name)
    ensures var m := ModelAt(d.catalog, name).value;
      UpdateFor(d, m, RowsOf(ToggleOverrides(ProjectDestinationCatalog(d), ids, on), name)) == ToggleUpdate(d, m, on)
  {
    var overrides := ToggleOverrides(ProjectDestinationCatalog(d), ids, on);
    BatchMembers(d, ids, on);
    var m := ModelAt(d.catalog, name).value;
    forall p | p in Available(d, m) ensures exists r :: r in RowsOf(overrides, name) && r.protocol == p {
      var r := Override(name, p, if on then ForceOn else ForceOff, false);
      assert IsToggleRow(d, r, on);
      assert r in RowsOf(overrides, name);
    }
    ToggleRowsTranslate(d, m, RowsOf(overrides, name), on);
  }

  // ---- The gateway applies it --------------------------------------------------------------------

  /** Client and gateway agree on which protocols the model can use. */
  predicate RoutesAgree(d: Destination, m: Model) {
    m.upstreamOverride.Some? || |d.routes| > 0 || d.legacy != PlatformParent || d.usableBaseUrl
  }

  lemma ToggleUpdateApplies(d: Destination, m: Model, on: bool)
    requires |Available(d, m)| > 0
    ensures ApplyUpdate(m, ToggleUpdate(d, m, on), GatewayAvailable(d, m))
      == if RoutesAgree(d, m) then Some(Toggled(d, m, on)) else None
  {
    var available := Available(d, m);
    assert available[0] in available;
    if RoutesAgree(d, m) {
      assert forall p :: p in available <==> p in GatewayAvailable(d, m);
    } else {
      assert GatewayAvailable(d, m) == [];
    }
  }

  predicate NameAgrees(d: Destination, name: string) {
    ModelAt(d.catalog, name).Some? ==> RoutesAgree(d, ModelAt(d.catalog, name).value)
  }

  ghost predicate AllAgree(d: Destination, names: seq<string>) {
    forall name :: name in names ==> NameAgrees(d, name)
  }

  /** The gateway's look-up finds the toggled model where the client's did. */
  lemma FoundByName(lower: string -> string, key: string -> string, d: Destination, done: set<string>, i: nat, on: bool)
    requires WellNamed(lower, key, d) && i < |d.catalog|
    ensures FindLower(lower, ToggledCatalog(d, done, on), key(d.catalog[i].publicModel)) == i
  {
    var catalog := ToggledCatalog(d, done, on);
    assert forall j :: 0 <= j < |catalog| ==> catalog[j].publicModel == d.catalog[j].publicModel;
    assert key(d.catalog[i].publicModel) == lower(catalog[i].publicModel);
  }

  lemma OneMoreToggled(lower: string -> string, key: string -> string, d: Destination, done: set<string>, name: string, on: bool)
    requires WellNamed(lower, key, d) && Togglable(d, name) && name !in done
    ensures var catalog := ToggledCatalog(d, done, on);
      var i := FindLower(lower, catalog, key(name));
      && i < |catalog| && catalog[i] == ModelAt(d.catalog, name).value
      && catalog[i := Toggled(d, catalog[i], on)] == ToggledCatalog(d, done + {name}, on)
  {
    var catalog := ToggledCatalog(d, done, on);
    var i := ModelNamed(d.catalog, name);
    FoundByName(lower, key, d, done, i, on);
    var next := catalog[i := Toggled(d, catalog[i], on)];
    forall j | 0 <= j < |catalog| ensures next[j] == ToggledCatalog(d, done + {name}, on)[j] {
      assert j != i ==> d.catalog[j].publicModel != name;
    }
  }

  /** The last update of a list, once the others are applied. */
  lemma ApplyLast(lower: string -> string, key: string -> string, d: Destination, updates: seq<Update>)
    requires updates != []
    requires var n := |updates| - 1;
      ApplyUpdates(lower, key, d, updates[..n]).Some? && forall j :: 0 <= j < n ==> key(updates[j].publicModel) != key(updates[n].publicModel)
    requires var n := |updates| - 1;
      var catalog := ApplyUpdates(lower, key, d, updates[..n]).value;
      FindLower(lower, catalog, key(updates[n].publicModel)) < |catalog|
    ensures var u := updates[|updates| - 1];
      var catalog := ApplyUpdates(lower, key, d, updates[..|updates| - 1]).value;
      var i := FindLower(lower, catalog, key(u.publicModel));
      var m := ApplyUpdate(catalog[i], u, GatewayAvailable(d, catalog[i]));
      ApplyUpdates(lower, key, d, updates) == if m.None? then None else Some(catalog[i := m.value])
  {
  }

  function NameSet(names: seq<string>): set<string> { set n | n in names }

  lemma NextToggle(lower: string -> string, key: string -> string, d: Destination, on: bool, names: seq<string>)
    requires WellNamed(lower, key, d) && Distinct(names) && names != []
    requires forall name :: name in names ==> Togglable(d, name)
    requires ApplyUpdates(lower, key, d, ToggleUpdates(d, names, on)[..|names| - 1])
      == Some(ToggledCatalog(d, NameSet(names[..|names| - 1]), on))
    ensures ApplyUpdates(lower, key, d, ToggleUpdates(d, names, on))
      == if NameAgrees(d, names[|names| - 1]) then Some(ToggledCatalog(d, NameSet(names), on)) else None
  {
    var front, name := names[..|names| - 1], names[|names| - 1];
    var updates := ToggleUpdates(d, names, on);
    assert name in names && Togglable(d, name);
    var m := ModelAt(d.catalog, name).value;
    UpdateNames(d, names, on);
    NoKeyRepeats(lower, key, d, front, name);
    OneMoreToggled(lower, key, d, NameSet(front), name, on);
    var n := |front|;
    assert updates[n] == ToggleUpdate(d, m, on) && updates[n].publicModel == name;
    assert ApplyUpdates(lower, key, d, updates) == (
        var catalog := ToggledCatalog(d, NameSet(front), on);
        var i := FindLower(lower, catalog, key(name));
        var r := ApplyUpdate(catalog[i], updates[n], GatewayAvailable(d, catalog[i]));
        if r.None? then None else Some(catalog[i := r.value])) by
    {
      forall j | 0 <= j < n ensures key(updates[j].publicModel) != key(name) { assert updates[j].publicModel == front[j]; }
      ApplyLast(lower, key, d, updates);
    }
    ToggleUpdateApplies(d, m, on);
    NameSetSnoc(names);
  }

  lemma NameSetSnoc(names: seq<string>)
    requires names != []
    ensures NameSet(names) == NameSet(names[..|names| - 1]) + {names[|names| - 1]}
  {
    assert names == names[..|names| - 1] + [names[|names| - 1]];
  }

  lemma {:induction false} GatewayAppliesToggles(lower: string -> string, key: string -> string, d: Destination, on: bool, names: seq<string>)
    requires WellNamed(lower, key, d) && Distinct(names)
    requires forall name :: name in names ==> Togglable(d, name)
    ensures ApplyUpdates(lower, key, d, ToggleUpdates(d, names, on))
      == if AllAgree(d, names) then Some(ToggledCatalog(d, NameSet(names), on)) else None
  {
    if names == [] {
      assert NameSet(names) == {} && ToggledCatalog(d, {}, on) == d.catalog;
    } else {
      var front, name := names[..|names| - 1], names[|names| - 1];
      GatewayAppliesToggles(lower, key, d, on, front);
      var updates := ToggleUpdates(d, names, on);
      assert updates[..|updates| - 1] == ToggleUpdates(d, front, on);
      assert AllAgree(d, names) <==> AllAgree(d, front) && NameAgrees(d, name) by {
        assert forall n :: n in names <==> n in front || n == name;
      }
      if AllAgree(d, front) {
        NextToggle(lower, key, d, on, names);
      }
    }
  }

  lemma NoKeyRepeats(lower: string -> string, key: string -> string, d: Destination, names: seq<string>, name: string)
    requires WellNamed(lower, key, d) && name !in names && Togglable(d, name)
    requires forall n :: n in names ==> Togglable(d, n)
    ensures forall j :: 0 <= j < |names| ==> key(names[j]) != key(name)
  {
    var i := ModelNamed(d.catalog, name);
    forall j | 0 <= j < |names| ensures key(names[j]) != key(name) {
      assert names[j] in names;
      var k := ModelNamed(d.catalog, names[j]);
      assert k != i;
    }
  }

  /** The updates a toggle sends. */
  ghost function ToggleBatch(d: Destination, ids: seq<string>, on: bool): seq<Update> {
    var overrides := ToggleOverrides(ProjectDestinationCatalog(d), ids, on);
    UpdatesFor(d, overrides, Unique(IdsOf(overrides)))
  }

  /** Where the catalog can be edited, client and gateway see the same protocols. */
  lemma EditableRoutesAgree(lower: string -> string, key: string -> string, d: Destination, m: Model)
    requires WellKept(lower, key, d) && Editable(d)
    ensures RoutesAgree(d, m)
  {
  }

  /** A platform parent's catalog is never edited, whatever its routes and base URL. */
  lemma PlatformParentsAreRefused(lower: string -> string, key: string -> string, d: Destination, updates: seq<Update>)
    requires WellKept(lower, key, d) && d.legacy == PlatformParent
    ensures !Editable(d) && GatewayApply(lower, key, d, updates).None?
  {
  }

  /**
   * The gateway accepts a toggle exactly when the destination is editable and
   * the batch within the limit. Then every listed model with some protocol
   * reads back as requested, and no other model changes.
   */
  lemma ToggleIsFaithful(lower: string -> string, key: string -> string, d: Destination, ids: seq<string>, on: bool)
    requires WellKept(lower, key, d)
    ensures var r := GatewayApply(lower, key, d, ToggleBatch(d, ids, on));
      && (r.Some? <==> Editable(d) && |ToggleBatch(d, ids, on)| <= MAX_CATALOG_UPDATES)
      && (r.Some? ==>
          && |r.value| == |d.catalog|
          && forall i :: 0 <= i < |d.catalog| ==>
            if d.catalog[i].publicModel in ids && |Available(d, d.catalog[i])| > 0
            then r.value[i] == Toggled(d, d.catalog[i], on) && ModelEffectiveOn(ProjectedModel(d.(catalog := r.value), r.value[i])) == on
            else r.value[i] == d.catalog[i])
  {
    var names := Unique(IdsOf(ToggleOverrides(ProjectDestinationCatalog(d), ids, on)));
    BatchNames(d, ids, on);
    BatchTranslates(d, ids, on, names);
    GatewayAppliesToggles(lower, key, d, on, names);
    if Editable(d) {
      assert AllAgree(d, names) by {
        forall name | name in names ensures NameAgrees(d, name) {
          if ModelAt(d.catalog, name).Some? { EditableRoutesAgree(lower, key, d, ModelAt(d.catalog, name).value); }
        }
      }
    }
    forall i | 0 <= i < |d.catalog|
      ensures d.catalog[i].publicModel in names <==> d.catalog[i].publicModel in ids && |Available(d, d.catalog[i])| > 0
    {
      var k := ModelNamed(d.catalog, d.catalog[i].publicModel);
      assert k == i;
    }
    var r := GatewayApply(lower, key, d, ToggleBatch(d, ids, on));
    if r.Some? {
      forall i | 0 <= i < |d.catalog| && d.catalog[i].publicModel in names
        ensures ModelEffectiveOn(ProjectedModel(d.(catalog := r.value), r.value[i])) == on
      {
        ToggledReadsBack(d, d.catalog[i], on);
        SameRoutes(d, d.(catalog := r.value), r.value[i]);
      }
    }
  }

  lemma SameRoutes(d: Destination, e: Destination, m: Model)
    requires e == d.(catalog := e.catalog)
    ensures ProjectedModel(e, m) == ProjectedModel(d, m)
  {
    assert Available(e, m) == Available(d, m);
    assert forall p :: Slot(e, m, p) == Slot(d, m, p);
    assert ProjectedModel(e, m).protocols == ProjectedModel(d, m).protocols;
  }

  // ---- Any batch at all --------------------------------------------------------------------------

  /** Whatever the overrides, an update stays within the model's protocols and prefers one it enables. */
  lemma {:induction false} UpdatesAreSound(d: Destination, overrides: seq<Override>, names: seq<string>, u: Update)
    requires u in UpdatesFor(d, overrides, names)
    ensures ModelAt(d.catalog, u.publicModel).Some?
    ensures Distinct(u.protocols) && forall p :: p in u.protocols ==> p in Available(d, ModelAt(d.catalog, u.publicModel).value)
    ensures u.enabled <==> |u.protocols| > 0
    ensures u.enabled ==> u.preferred.Some? && u.preferred.value in u.protocols
  {
    var front, name := names[..|names| - 1], names[|names| - 1];
    if u in UpdatesFor(d, overrides, front) {
      UpdatesAreSound(d, overrides, front, u);
    } else {
      var k := ModelNamed(d.catalog, name);
      assert u == UpdateFor(d, ModelAt(d.catalog, name).value, RowsOf(overrides, name));
      assert |u.protocols| > 0 ==> u.protocols[0] in u.protocols;
    }
  }

  // ---- Off and then on again -----------------------------------------------------------------------

  /** A catalog whose models kept their names and their own routes. */
  ghost predicate SameModels(d: Destination, e: Destination) {
    && e == d.(catalog := e.catalog) && |e.catalog| == |d.catalog|
    && forall i :: 0 <= i < |d.catalog| ==>
         e.catalog[i].publicModel == d.catalog[i].publicModel && e.catalog[i].upstreamOverride == d.catalog[i].upstreamOverride
  }

  lemma {:induction false} SameLookUp(a: seq<Model>, b: seq<Model>, name: string)
    requires |a| == |b|
    requires forall i :: 0 <= i < |a| ==> a[i].publicModel == b[i].publicModel && a[i].upstreamOverride == b[i].upstreamOverride
    ensures ModelAt(a, name).Some? <==> ModelAt(b, name).Some?
    ensures ModelAt(a, name).Some? ==> ModelAt(a, name).value.upstreamOverride == ModelAt(b, name).value.upstreamOverride
  {
    if a != [] { SameLookUp(a[1..], b[1..], name); }
  }

  lemma SameTogglable(d: Destination, e: Destination, name: string)
    requires SameModels(d, e)
    ensures Togglable(d, name) <==> Togglable(e, name)
  {
    SameLookUp(d.catalog, e.catalog, name);
  }

  /** Both directions of a toggle send as many updates. */
  lemma SameBatchSize(d: Destination, e: Destination, ids: seq<string>)
    requires SameModels(d, e)
    ensures |ToggleBatch(d, ids, false)| == |ToggleBatch(e, ids, true)|
  {
    var off := Unique(IdsOf(ToggleOverrides(ProjectDestinationCatalog(d), ids, false)));
    var on := Unique(IdsOf(ToggleOverrides(ProjectDestinationCatalog(e), ids, true)));
    BatchNames(d, ids, false);
    BatchNames(e, ids, true);
    BatchTranslates(d, ids, false, off);
    BatchTranslates(e, ids, true, on);
    forall name ensures name in off <==> name in on { SameTogglable(d, e, name); }
    SameMembersSameLength(off, on);
  }

  lemma ToggledKeepsModels(d: Destination, ids: seq<string>, catalog: seq<Model>, on: bool)
    requires |catalog| == |d.catalog|
    requires forall i :: 0 <= i < |d.catalog| ==> catalog[i] == d.catalog[i] || catalog[i] == Toggled(d, d.catalog[i], on)
    ensures SameModels(d, d.(catalog := catalog))
  {
  }

  lemma StillWellKept(lower: string -> string, key: string -> string, d: Destination, e: Destination)
    requires WellKept(lower, key, d) && SameModels(d, e)
    ensures WellKept(lower, key, e)
  {
  }

  lemma ToggledAgain(d: Destination, e: Destination, m: Model, on: bool)
    requires e == d.(catalog := e.catalog)
    ensures Toggled(e, m, on) == Toggled(d, m, on)
  {
    assert Available(e, m) == Available(d, m);
  }

  /**
   * What the gateway accepts switched off it accepts switched on again, over
   * the catalog it then has. Every listed model with some protocol ends with
   * all of them enabled and shows the preferred protocol it showed at first,
   * also while it is off; no other model changes.
   */
  lemma OffThenOn(lower: string -> string, key: string -> string, d: Destination, ids: seq<string>)
    requires WellKept(lower, key, d)
    requires GatewayApply(lower, key, d, ToggleBatch(d, ids, false)).Some?
    ensures var e := d.(catalog := GatewayApply(lower, key, d, ToggleBatch(d, ids, false)).value);
      var r := GatewayApply(lower, key, e, ToggleBatch(e, ids, true));
      && r.Some? && |r.value| == |e.catalog| == |d.catalog|
      && forall i :: 0 <= i < |d.catalog| ==> RestoredTo(d, ids, d.catalog[i], e.catalog[i], r.value[i])
  {
    var off := GatewayApply(lower, key, d, ToggleBatch(d, ids, false)).value;
    ToggleIsFaithful(lower, key, d, ids, false);
    var e := d.(catalog := off);
    ToggledKeepsModels(d, ids, off, false);
    StillWellKept(lower, key, d, e);
    SameBatchSize(d, e, ids);
    ToggleIsFaithful(lower, key, e, ids, true);
    var r := GatewayApply(lower, key, e, ToggleBatch(e, ids, true));
    forall i | 0 <= i < |d.catalog| ensures RestoredTo(d, ids, d.catalog[i], e.catalog[i], r.value[i]) {
      RestoredOne(d, e, ids, d.catalog[i], e.catalog[i], r.value[i]);
    }
  }

  /** What off and then on makes of a model that was `before`. */
  ghost predicate RestoredTo(d: Destination, ids: seq<string>, before: Model, between: Model, after: Model) {
    if before.publicModel in ids && |Available(d, before)| > 0
    then
      && !ModelEffectiveOn(ProjectedModel(d, between))
      && (forall p :: p in Available(d, before) ==> IsEnabled(ProjectedModel(d, after), p))
      && ProjectedModel(d, before).preferred == ProjectedModel(d, between).preferred == ProjectedModel(d, after).preferred
    else before == between == after
  }

  lemma RestoredOne(d: Destination, e: Destination, ids: seq<string>, before: Model, between: Model, after: Model)
    requires e == d.(catalog := e.catalog)
    requires var listed := before.publicModel in ids && |Available(d, before)| > 0;
      between == if listed then Toggled(d, before, false) else before
    requires var listed := between.publicModel in ids && |Available(e, between)| > 0;
      after == if listed then Toggled(e, between, true) else between
    ensures RestoredTo(d, ids, before, between, after)
  {
    assert Available(e, between) == Available(d, between) == Available(d, before);
    ToggledAgain(d, e, between, true);
    if before.publicModel in ids && |Available(d, before)| > 0 {
      ModelOffThenOn(d, before);
      ToggledReadsBack(d, before, false);
    }
  }
}
