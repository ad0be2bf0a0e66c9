/**
 * What the rows of the model matrix say and what they do, for both kinds of
 * scope: the projection field by field, the rows of a toggle one by one, and
 * what any list of rows makes of a model.
 */
module MatrixRows {
  import opened Lists
  import opened ModelMatrix
  import opened MatrixToggle

  // ---- The projection ------------------------------------------------------------------

  /** The contract row of a model, from the destination's fields. */
  lemma ProjectionReads(d: Destination, m: Model, available: seq<Protocol>)
    requires available == if m.upstreamOverride.Some? then [m.upstreamOverride.value]
                          else Unique(if |d.routes| > 0 then d.routes else d.protocols)
    ensures var c := ProjectedModel(d, m);
      && c.modelId == m.publicModel
      && (forall p :: p in c.protocols <==> p in available || d.legacy == CustomAccount || d.legacy == Dynamic)
      && (forall p :: p in c.protocols ==>
            c.protocols[p] == Evidence(p in available, m.enabled && p in available && p in m.protocols))
      && (c.routable <==> m.enabled && exists p :: p in available && p in m.protocols)
      && c.preferred == (if m.preferred.Some? && (available == [] || m.preferred.value in available) then m.preferred.value
                         else if available == [] then ChatCompletions
                         else available[0])
  {
    var c := ProjectedModel(d, m);
    forall p ensures p in PROVIDER_PROTOCOLS { EveryProtocolIsListed(p); }
    if p :| p in available && p in m.protocols { assert available[IndexOf(available, p)] in m.protocols; }
  }

  // ---- The rows of a toggle --------------------------------------------------------------

  lemma {:induction false} ContractNamed(models: seq<Contract>, id: string) returns (i: nat)
    ensures ContractAt(models, id).Some? ==> i < |models| && models[i] == ContractAt(models, id).value && models[i].modelId == id
    ensures ContractAt(models, id).Some? ==> forall j :: 0 <= j < i ==> models[j].modelId != id
    ensures ContractAt(models, id).None? ==> forall j :: 0 <= j < |models| ==> models[j].modelId != id
  {
    i := 0;
    if models != [] && models[0].modelId != id {
      var k := ContractNamed(models[1..], id);
      i := k + 1;
    }
  }

  predicate Shown(c: Contract, p: Protocol) {
    p in c.protocols && c.protocols[p].available
  }

  /** The first available protocol in the dashboard's order. */
  predicate IsFirstAvailable(c: Contract, p: Protocol) {
    match p
    case ChatCompletions => Shown(c, ChatCompletions)
    case Responses => Shown(c, Responses) && !Shown(c, ChatCompletions)
    case Messages => Shown(c, Messages) && !Shown(c, ChatCompletions) && !Shown(c, Responses)
  }

  /**
   * The row a toggle writes for `p`: switching on forces the available ones on;
   * switching off forces off every slot of a provider, the available ones of a
   * custom endpoint, and keeps a provider's choice by stamping its preferred
   * slot, or the first available one if it has no such slot.
   */
  predicate IsRow(c: Contract, kind: ScopeKind, on: bool, r: Override) {
    && r.protocol in c.protocols
    && (on || kind == CustomEndpoint ==> c.protocols[r.protocol].available)
    && r.state == (if on then ForceOn else ForceOff)
    && (r.preferred <==> !on && kind == Provider && IsStamped(c, r.protocol))
  }

  predicate IsStamped(c: Contract, p: Protocol) {
    if c.preferred in c.protocols then p == c.preferred else IsFirstAvailable(c, p)
  }

  lemma StampExactly(c: Contract, p: Protocol)
    ensures PreferredStamp(c, Provider) == Some(p) <==> IsStamped(c, p)
  {
    EveryProtocolIsListed(c.preferred);
    if c.preferred !in c.protocols {
      FirstPicked(c);
    }
  }

  lemma FirstPicked(c: Contract)
    ensures var available := Pick(PROVIDER_PROTOCOLS, q => IsAvailable(c, q));
      forall p :: (|available| > 0 && available[0] == p) <==> IsFirstAvailable(c, p)
  {
    FirstOf(c, PROVIDER_PROTOCOLS, q => IsAvailable(c, q));
  }

  lemma FirstOf(c: Contract, s: seq<Protocol>, keep: Protocol -> bool)
    requires |s| == 3 && s[0] == ChatCompletions && s[1] == Responses && s[2] == Messages
    requires forall q :: keep(q) == Shown(c, q)
    ensures forall p :: (|Pick(s, keep)| > 0 && Pick(s, keep)[0] == p) <==> IsFirstAvailable(c, p)
  {
    if |Pick(s, keep)| > 0 {
      var k := FirstOfPick(s, keep);
      FirstInOrder(c, s, k);
    } else {
      forall q ensures !Shown(c, q) {
        assert q == s[0] || q == s[1] || q == s[2];
        assert q !in Pick(s, keep);
      }
    }
  }

  lemma FirstInOrder(c: Contract, s: seq<Protocol>, k: nat)
    requires |s| == 3 && s[0] == ChatCompletions && s[1] == Responses && s[2] == Messages
    requires k < 3 && Shown(c, s[k]) && forall j :: 0 <= j < k ==> !Shown(c, s[j])
    ensures forall p :: IsFirstAvailable(c, p) <==> p == s[k]
  {
  }

  lemma {:induction false} FirstOfPick<T(!new)>(s: seq<T>, keep: T -> bool) returns (k: nat)
    requires Pick(s, keep) != []
    ensures k < |s| && s[k] == Pick(s, keep)[0] && keep(s[k]) && forall j :: 0 <= j < k ==> !keep(s[j])
  {
    if keep(s[0]) {
      k := 0;
    } else {
      k := FirstOfPick(s[1..], keep);
      k := k + 1;
    }
  }

  /** Picking keeps the order of the list. */
  lemma {:induction false} PickConcat<T(!new)>(s: seq<T>, t: seq<T>, keep: T -> bool)
    ensures Pick(s + t, keep) == Pick(s, keep) + Pick(t, keep)
  {
    if s == [] {
      assert s + t == t;
    } else {
      assert (s + t)[1..] == s[1..] + t;
      PickConcat(s[1..], t, keep);
    }
  }

  lemma TargetsExactly(c: Contract, kind: ScopeKind, on: bool, p: Protocol)
    ensures p in Targets(c, kind, on) <==> p in c.protocols && (on || kind == CustomEndpoint ==> c.protocols[p].available)
  {
    EveryProtocolIsListed(p);
  }

  lemma RowsForExactly(c: Contract, id: string, kind: ScopeKind, on: bool, r: Override)
    ensures r in RowsFor(c, id, kind, on) <==> r.modelId == id && IsRow(c, kind, on, r)
  {
    RowMembers(id, Targets(c, kind, on), if on then ForceOn else ForceOff, if on then None else PreferredStamp(c, kind));
    TargetsExactly(c, kind, on, r.protocol);
    StampExactly(c, r.protocol);
  }

  /** The batch, row by row, for either kind of scope: the first contract of each listed id decides. */
  lemma {:induction false} BatchExactly(scope: Scope, ids: seq<string>, on: bool, r: Override)
    ensures r in ToggleOverrides(scope, ids, on) <==>
      && r.modelId in ids && ContractAt(scope.models, r.modelId).Some?
      && IsRow(ContractAt(scope.models, r.modelId).value, scope.kind, on, r)
  {
    if ids != [] {
      var front, id := ids[..|ids| - 1], ids[|ids| - 1];
      BatchExactly(scope, front, on, r);
      assert r.modelId in ids <==> r.modelId in front || r.modelId == id;
      var c := ContractAt(scope.models, id);
      if c.Some? { RowsForExactly(c.value, id, scope.kind, on, r); }
    }
  }

  /** The rows come id by id, and within an id in the dashboard's order of protocols, each once. */
  lemma {:induction false} BatchInOrder(scope: Scope, a: seq<string>, b: seq<string>, on: bool)
    ensures ToggleOverrides(scope, a + b, on) == ToggleOverrides(scope, a, on) + ToggleOverrides(scope, b, on)
  {
    if b == [] {
      assert a + b == a;
    } else {
      var front, last := b[..|b| - 1], b[|b| - 1];
      assert a + b == (a + front) + [last] && b == front + [last];
      calc {
        ToggleOverrides(scope, a + b, on);
        { OneMoreId(scope, a + front, last, on); }
        ToggleOverrides(scope, a + front, on) + ToggleOverrides(scope, [last], on);
        { BatchInOrder(scope, a, front, on); }
        (ToggleOverrides(scope, a, on) + ToggleOverrides(scope, front, on)) + ToggleOverrides(scope, [last], on);
        { Reassociate(ToggleOverrides(scope, a, on), ToggleOverrides(scope, front, on), ToggleOverrides(scope, [last], on)); }
        ToggleOverrides(scope, a, on) + (ToggleOverrides(scope, front, on) + ToggleOverrides(scope, [last], on));
        { OneMoreId(scope, front, last, on); }
        ToggleOverrides(scope, a, on) + ToggleOverrides(scope, b, on);
      }
    }
  }

  lemma Reassociate<T>(x: seq<T>, y: seq<T>, z: seq<T>)
    ensures (x + y) + z == x + (y + z)
  {
  }

  lemma OneMoreId(scope: Scope, ids: seq<string>, id: string, on: bool)
    ensures ToggleOverrides(scope, ids + [id], on) == ToggleOverrides(scope, ids, on) + ToggleOverrides(scope, [id], on)
  {
    assert (ids + [id])[..|ids|] == ids && [id][..0] == [];
  }

  lemma RowsInOrder(c: Contract, id: string, kind: ScopeKind, on: bool, i: nat, j: nat)
    requires i < j < |RowsFor(c, id, kind, on)|
    ensures var rows := RowsFor(c, id, kind, on);
      IndexOf(PROVIDER_PROTOCOLS, rows[i].protocol) < IndexOf(PROVIDER_PROTOCOLS, rows[j].protocol)
  {
    RowsFollow(id, Targets(c, kind, on), if on then ForceOn else ForceOff, if on then None else PreferredStamp(c, kind));
    TargetsInOrder(c, kind, on, i, j);
  }

  lemma TargetsInOrder(c: Contract, kind: ScopeKind, on: bool, i: nat, j: nat)
    requires i < j < |Targets(c, kind, on)|
    ensures IndexOf(PROVIDER_PROTOCOLS, Targets(c, kind, on)[i]) < IndexOf(PROVIDER_PROTOCOLS, Targets(c, kind, on)[j])
  {
    if on {
      ProtocolsInOrder(PROVIDER_PROTOCOLS, p => IsAvailable(c, p) && IsWritable(c, kind, p), i, j);
    } else {
      ProtocolsInOrder(PROVIDER_PROTOCOLS, p => IsWritable(c, kind, p), i, j);
    }
  }

  lemma ProtocolsInOrder(s: seq<Protocol>, keep: Protocol -> bool, i: nat, j: nat)
    requires |s| == 3 && s[0] == ChatCompletions && s[1] == Responses && s[2] == Messages
    requires i < j < |Pick(s, keep)|
    ensures IndexOf(s, Pick(s, keep)[i]) < IndexOf(s, Pick(s, keep)[j])
  {
    PickInOrder(s, keep, i, j);
  }

  lemma {:induction false} RowsFollow(id: string, targets: seq<Protocol>, state: OverrideState, stamp: Option<Protocol>)
    ensures |Rows(id, targets, state, stamp)| == |targets|
    ensures forall k :: 0 <= k < |targets| ==>
      Rows(id, targets, state, stamp)[k] == Override(id, targets[k], state, stamp == Some(targets[k]))
  {
    if targets != [] { RowsFollow(id, targets[..|targets| - 1], state, stamp); }
  }

  lemma PickInOrder<T(!new)>(s: seq<T>, keep: T -> bool, i: nat, j: nat)
    requires Distinct(s) && i < j < |Pick(s, keep)|
    ensures IndexOf(s, Pick(s, keep)[i]) < IndexOf(s, Pick(s, keep)[j])
  {
    var k, l := PickedFrom(s, keep, i, j);
  }

  lemma {:induction false} PickedFrom<T(!new)>(s: seq<T>, keep: T -> bool, i: nat, j: nat) returns (k: nat, l: nat)
    requires i < j < |Pick(s, keep)|
    ensures k < l < |s| && s[k] == Pick(s, keep)[i] && s[l] == Pick(s, keep)[j]
  {
    PickAt(s, keep, j);
    if keep(s[0]) && i == 0 {
      k := 0;
      l := InTail(s, Pick(s, keep)[j]);
    } else {
      PickAt(s, keep, i);
      var shift := if keep(s[0]) then 1 else 0;
      k, l := PickedFrom(s[1..], keep, i - shift, j - shift);
      k, l := k + 1, l + 1;
    }
  }

  lemma InTail<T>(s: seq<T>, x: T) returns (l: nat)
    requires s != [] && x in s[1..]
    ensures 0 < l < |s| && s[l] == x
  {
    l :| 1 <= l < |s| && s[1..][l - 1] == x;
  }

  lemma PickAt<T(!new)>(s: seq<T>, keep: T -> bool, i: nat)
    requires i < |Pick(s, keep)| && (keep(s[0]) ==> i > 0)
    ensures var k := if keep(s[0]) then i - 1 else i;
      k < |Pick(s[1..], keep)| && Pick(s, keep)[i] == Pick(s[1..], keep)[k] && Pick(s, keep)[i] in s[1..]
  {
    var k := if keep(s[0]) then i - 1 else i;
    assert Pick(s[1..], keep)[k] in Pick(s[1..], keep);
  }

  // ---- What any rows make of a model ---------------------------------------------------------

  /** The last row that says something of an available protocol decides it. */
  lemma {:induction false} LastRowDecides(rows: seq<Override>, available: seq<Protocol>, enabled: set<Protocol>,
                                          preferred: Option<Protocol>, k: nat)
    requires k < |rows| && rows[k].protocol in available && rows[k].state != Auto
    requires forall j :: k < j < |rows| && rows[j].protocol == rows[k].protocol ==> rows[j].state == Auto
    ensures rows[k].protocol in AfterRows(rows, available, enabled, preferred).0 <==> rows[k].state == ForceOn
  {
    if k < |rows| - 1 { LastRowDecides(rows[..|rows| - 1], available, enabled, preferred, k); }
  }

  /** A protocol no such row is about stays as it was. */
  lemma {:induction false} NoRowDecides(rows: seq<Override>, available: seq<Protocol>, enabled: set<Protocol>,
                                        preferred: Option<Protocol>, p: Protocol)
    requires forall j :: 0 <= j < |rows| && rows[j].protocol == p && p in available ==> rows[j].state == Auto
    ensures p in AfterRows(rows, available, enabled, preferred).0 <==> p in enabled
  {
    if rows != [] { NoRowDecides(rows[..|rows| - 1], available, enabled, preferred, p); }
  }

  /** The last row that prefers an available protocol is the choice; without one the choice stays. */
  lemma {:induction false} LastPreferenceStays(rows: seq<Override>, available: seq<Protocol>, enabled: set<Protocol>,
                                               preferred: Option<Protocol>, k: nat)
    requires k <= |rows| && forall j :: k < j < |rows| ==> !(rows[j].preferred && rows[j].protocol in available)
    requires k < |rows| ==> rows[k].preferred && rows[k].protocol in available
    requires k == |rows| ==> forall j :: 0 <= j < |rows| ==> !(rows[j].preferred && rows[j].protocol in available)
    ensures AfterRows(rows, available, enabled, preferred).1 == if k < |rows| then Some(rows[k].protocol) else preferred
  {
    if rows != [] && k != |rows| - 1 {
      LastPreferenceStays(rows[..|rows| - 1], available, enabled, preferred, if k == |rows| then k - 1 else k);
    }
  }

  /**
   * The update rows amount to: the enabled protocols in the order of the
   * configured ones, on if there is any, and the choice the rows leave unless
   * the model is on without it.
   */
  lemma UpdateExactly(d: Destination, m: Model, rows: seq<Override>, enabled: set<Protocol>, preferred: Option<Protocol>)
    requires (enabled, preferred) == AfterRows(rows, Available(d, m),
      (set p | p in m.protocols && p in Available(d, m) && m.enabled), PreferredOf(m, Available(d, m)))
    ensures var u := UpdateFor(d, m, rows);
      && u.publicModel == m.publicModel
      && Distinct(u.protocols) && (forall p :: p in u.protocols <==> p in Available(d, m) && p in enabled)
      && (u.enabled <==> u.protocols != [])
      && u.preferred == (if u.protocols == [] || (preferred.Some? && preferred.value in enabled && preferred.value in Available(d, m))
                         then preferred else Some(u.protocols[0]))
    ensures var u := UpdateFor(d, m, rows);
      forall i, j :: 0 <= i < j < |u.protocols| ==> IndexOf(Available(d, m), u.protocols[i]) < IndexOf(Available(d, m), u.protocols[j])
  {
    var available := Available(d, m);
    assert EnabledBefore(m, available) == set p | p in m.protocols && p in available && m.enabled;
    var keep := p => p in enabled;
    forall i, j | 0 <= i < j < |Pick(available, keep)|
      ensures IndexOf(available, Pick(available, keep)[i]) < IndexOf(available, Pick(available, keep)[j])
    {
      PickInOrder(available, keep, i, j);
    }
  }

  /** The updates come name by name: one for each model the destination has, from its own rows, and none for another name. */
  lemma {:induction false} UpdatesInOrder(d: Destination, overrides: seq<Override>, a: seq<string>, b: seq<string>)
    ensures UpdatesFor(d, overrides, a + b) == UpdatesFor(d, overrides, a) + UpdatesFor(d, overrides, b)
  {
    if b == [] {
      assert a + b == a;
    } else {
      var front, last := b[..|b| - 1], b[|b| - 1];
      assert a + b == (a + front) + [last] && b == front + [last];
      calc {
        UpdatesFor(d, overrides, a + b);
        { OneMoreName(d, overrides, a + front, last); }
        UpdatesFor(d, overrides, a + front) + UpdatesFor(d, overrides, [last]);
        { UpdatesInOrder(d, overrides, a, front); }
        (UpdatesFor(d, overrides, a) + UpdatesFor(d, overrides, front)) + UpdatesFor(d, overrides, [last]);
        { Reassociate(UpdatesFor(d, overrides, a), UpdatesFor(d, overrides, front), UpdatesFor(d, overrides, [last])); }
        UpdatesFor(d, overrides, a) + (UpdatesFor(d, overrides, front) + UpdatesFor(d, overrides, [last]));
        { OneMoreName(d, overrides, front, last); }
        UpdatesFor(d, overrides, a) + UpdatesFor(d, overrides, b);
      }
    }
  }

  lemma OneMoreName(d: Destination, overrides: seq<Override>, names: seq<string>, name: string)
    ensures UpdatesFor(d, overrides, names + [name]) == UpdatesFor(d, overrides, names) + UpdatesFor(d, overrides, [name])
  {
    assert (names + [name])[..|names|] == names && [name][..0] == [];
  }

  lemma UpdateOfKnown(d: Destination, overrides: seq<Override>, i: nat)
    requires i < |d.catalog| && forall j :: 0 <= j < i ==> d.catalog[j].publicModel != d.catalog[i].publicModel
    ensures UpdatesFor(d, overrides, [d.catalog[i].publicModel])
         == [UpdateFor(d, d.catalog[i], RowsOf(overrides, d.catalog[i].publicModel))]
  {
    var name := d.catalog[i].publicModel;
    var k := ModelNamed(d.catalog, name);
    assert k == i;
    OnlyName(d, overrides, name);
  }

  lemma NoUpdateOfUnknown(d: Destination, overrides: seq<Override>, name: string)
    requires forall i :: 0 <= i < |d.catalog| ==> d.catalog[i].publicModel != name
    ensures UpdatesFor(d, overrides, [name]) == []
  {
    var k := ModelNamed(d.catalog, name);
    OnlyName(d, overrides, name);
  }

  lemma OnlyName(d: Destination, overrides: seq<Override>, name: string)
    ensures UpdatesFor(d, overrides, [name]) ==
            if ModelAt(d.catalog, name).None? then [] else [UpdateFor(d, ModelAt(d.catalog, name).value, RowsOf(overrides, name))]
  {
    assert [name][..0] == [];
  }

  // ---- The gateway on any update --------------------------------------------------------------

  /** One model's update is accepted exactly when it lists distinct usable protocols, and on means one of them, the named choice included. */
  lemma GatewayAcceptsExactly(m: Model, u: Update, available: seq<Protocol>)
    ensures ApplyUpdate(m, u, available).Some? <==>
      && Distinct(u.protocols) && (forall p :: p in u.protocols ==> p in available)
      && (u.preferred.Some? ==> u.preferred.value in available)
      && (u.enabled ==> u.protocols != [] && (u.preferred.Some? ==> u.preferred.value in u.protocols))
    ensures ApplyUpdate(m, u, available).Some? ==> var r := ApplyUpdate(m, u, available).value;
      && r == m.(enabled := u.enabled, protocols := u.protocols, preferred := r.preferred)
      && r.preferred == (if u.preferred.Some? then u.preferred
                         else if u.enabled && (m.preferred.None? || m.preferred.value !in u.protocols) then Some(u.protocols[0])
                         else m.preferred)
  {
  }

  lemma {:induction false} PreferenceIsAvailable(rows: seq<Override>, available: seq<Protocol>, enabled: set<Protocol>, preferred: Option<Protocol>)
    ensures AfterRows(rows, available, enabled, preferred).1 == preferred
      || (AfterRows(rows, available, enabled, preferred).1.Some? && AfterRows(rows, available, enabled, preferred).1.value in available)
  {
    if rows != [] { PreferenceIsAvailable(rows[..|rows| - 1], available, enabled, preferred); }
  }

  /** Whatever the rows, a gateway with the client's routes takes the update they amount to, unless the model has a choice and no protocol. */
  lemma AnyRowsApply(d: Destination, m: Model, rows: seq<Override>)
    requires RoutesAgree(d, m)
    ensures ApplyUpdate(m, UpdateFor(d, m, rows), GatewayAvailable(d, m)).Some? <==> |Available(d, m)| > 0 || m.preferred.None?
  {
    var available, u := Available(d, m), UpdateFor(d, m, rows);
    var before := set p | p in m.protocols && p in available && m.enabled;
    var (enabled, preferred) := AfterRows(rows, available, before, PreferredOf(m, available));
    UpdateExactly(d, m, rows, enabled, preferred);
    PreferenceIsAvailable(rows, available, before, PreferredOf(m, available));
    GatewayAcceptsExactly(m, u, GatewayAvailable(d, m));
    assert forall p :: p in available <==> p in GatewayAvailable(d, m);
    if |available| > 0 {
      assert available[0] in available;
      assert u.protocols != [] ==> u.protocols[0] in u.protocols;
    } else {
      assert u.protocols == [] && u.preferred == m.preferred;
    }
  }

  /** A batch is accepted only if it names known models, each once. */
  lemma {:induction false} AcceptedNamesAreKnown(lower: string -> string, key: string -> string, d: Destination, updates: seq<Update>)
    requires ApplyUpdates(lower, key, d, updates).Some?
    ensures |ApplyUpdates(lower, key, d, updates).value| == |d.catalog|
    ensures forall i, j :: 0 <= i < j < |updates| ==> key(updates[i].publicModel) != key(updates[j].publicModel)
    ensures forall i :: 0 <= i < |d.catalog| ==> ApplyUpdates(lower, key, d, updates).value[i].publicModel == d.catalog[i].publicModel
    ensures forall j :: 0 <= j < |updates| ==> HasName(lower, d.catalog, key(updates[j].publicModel))
  {
    if updates != [] {
      var front, u := updates[..|updates| - 1], updates[|updates| - 1];
      AcceptedNamesAreKnown(lower, key, d, front);
      var catalog := ApplyUpdates(lower, key, d, front).value;
      var i := FindLower(lower, catalog, key(u.publicModel));
      GatewayAcceptsExactly(catalog[i], u, GatewayAvailable(d, catalog[i]));
      assert lower(d.catalog[i].publicModel) == key(u.publicModel);
      assert forall j :: 0 <= j < |front| ==> front[j] == updates[j];
    }
  }

  ghost predicate HasName(lower: string -> string, catalog: seq<Model>, name: string) {
    exists i :: 0 <= i < |catalog| && lower(catalog[i].publicModel) == name
  }
}
