/**
 * Choosing the preferred protocol of a matrix row, from end to end:
 * buildPreferredProtocolOverrides (src/domain/provider-contracts.ts), its
 * translation, the gateway, and the row shown afterwards.
 */
module PreferredChoice {
  import opened Lists
  import opened ModelMatrix
  import opened MatrixToggle
  import opened MatrixRows

  function PreferredOverrides(scope: Scope, id: string, p: Protocol): seq<Override> {
    var c := ContractAt(scope.models, id);
    if c.None? || !IsAvailable(c.value, p) || p !in WritableProtocols(c.value, scope.kind) then []
    else if ModelEffectiveOn(c.value) then [Override(id, p, ForceOn, true)]
    else Rows(id, WritableProtocols(c.value, scope.kind), ForceOff, Some(p))
  }

  /** What the choice means for a model: the protocol joins those of a row that is on; a row that is off stays off. */
  function Chosen(d: Destination, m: Model, p: Protocol): Model {
    var on := ModelEffectiveOn(ProjectedModel(d, m));
    m.(enabled := on,
       protocols := if on then Pick(Available(d, m), q => q in m.protocols || q == p) else [],
       preferred := Some(p))
  }

  /** The updates a choice sends. */
  ghost function ChoiceBatch(d: Destination, id: string, p: Protocol): seq<Update> {
    var overrides := PreferredOverrides(ProjectDestinationCatalog(d), id, p);
    UpdatesFor(d, overrides, Unique(IdsOf(overrides)))
  }

  predicate Choosable(d: Destination, id: string, p: Protocol) {
    ModelAt(d.catalog, id).Some? && p in Available(d, ModelAt(d.catalog, id).value)
  }

  // ---- What the row shows ----------------------------------------------------------------

  lemma ShownOfModel(d: Destination, m: Model, p: Protocol)
    ensures IsAvailable(ProjectedModel(d, m), p) <==> p in Available(d, m)
    ensures IsEnabled(ProjectedModel(d, m), p) <==> p in Available(d, m) && m.enabled && p in m.protocols
  {
    EveryProtocolIsListed(p);
  }

  lemma OnMeansEnabled(c: Contract, p: Protocol)
    requires IsEnabled(c, p)
    ensures ModelEffectiveOn(c)
  {
    EveryProtocolIsListed(p);
  }

  lemma ChosenEnables(d: Destination, m: Model, p: Protocol, q: Protocol)
    requires p in Available(d, m)
    ensures var before, after := ProjectedModel(d, m), ProjectedModel(d, Chosen(d, m, p));
      && (IsEnabled(after, q) <==> ModelEffectiveOn(before) && (q == p || IsEnabled(before, q)))
      && (IsAvailable(after, q) <==> IsAvailable(before, q))
  {
    ShownOfModel(d, m, q);
    ShownOfModel(d, Chosen(d, m, p), q);
    assert Available(d, Chosen(d, m, p)) == Available(d, m);
    if ModelEffectiveOn(ProjectedModel(d, m)) {
      var r :| r in PROVIDER_PROTOCOLS && IsEnabled(ProjectedModel(d, m), r);
      ShownOfModel(d, m, r);
    }
  }

  /** The row shows the choice; whether it is on, and which other protocols are enabled, does not change. */
  lemma ChosenIsShown(d: Destination, m: Model, p: Protocol)
    requires p in Available(d, m)
    ensures var before, after := ProjectedModel(d, m), ProjectedModel(d, Chosen(d, m, p));
      && after.preferred == p
      && ModelEffectiveOn(after) == ModelEffectiveOn(before)
      && (ModelEffectiveOn(before) ==> IsEnabled(after, p))
      && forall q :: q != p ==> IsEnabled(after, q) == IsEnabled(before, q) && IsAvailable(after, q) == IsAvailable(before, q)
  {
    var before, after := ProjectedModel(d, m), ProjectedModel(d, Chosen(d, m, p));
    assert after.preferred == p by { assert Available(d, Chosen(d, m, p)) == Available(d, m); }
    forall q ensures IsEnabled(after, q) <==> (ModelEffectiveOn(before) && (q == p || IsEnabled(before, q))) {
      ChosenEnables(d, m, p, q);
    }
    forall q | IsEnabled(before, q) ensures ModelEffectiveOn(before) { OnMeansEnabled(before, q); }
    forall q ensures IsAvailable(after, q) == IsAvailable(before, q) { ChosenEnables(d, m, p, q); }
    if ModelEffectiveOn(before) { OnMeansEnabled(after, p); }
  }

  // ---- The overrides, for both kinds of scope ----------------------------------------------

  /**
   * The rows of a choice: none unless the protocol is available; on a row with
   * anything enabled the choice alone, forced on; otherwise every writable slot
   * stays forced off, and the choice is marked.
   */
  lemma ChoiceExactly(scope: Scope, id: string, p: Protocol, r: Override)
    ensures r in PreferredOverrides(scope, id, p) <==>
      var c := ContractAt(scope.models, id);
      && c.Some? && p in c.value.protocols && c.value.protocols[p].available
      && r.modelId == id && r.protocol in c.value.protocols && (r.preferred <==> r.protocol == p)
      && (if exists q :: q in c.value.protocols && c.value.protocols[q].enabled
          then r.state == ForceOn && r.protocol == p
          else r.state == ForceOff && (scope.kind == CustomEndpoint ==> c.value.protocols[r.protocol].available))
  {
    var c := ContractAt(scope.models, id);
    if c.Some? {
      WritableExactly(c.value, scope.kind, p);
      WritableExactly(c.value, scope.kind, r.protocol);
      RowMembers(id, WritableProtocols(c.value, scope.kind), ForceOff, Some(p));
      OnExactly(c.value);
    }
  }

  lemma WritableExactly(c: Contract, kind: ScopeKind, p: Protocol)
    ensures p in WritableProtocols(c, kind) <==> p in c.protocols && (kind == CustomEndpoint ==> c.protocols[p].available)
  {
    TargetsExactly(c, kind, false, p);
  }

  lemma OnExactly(c: Contract)
    ensures ModelEffectiveOn(c) <==> exists q :: q in c.protocols && c.protocols[q].enabled
  {
    if q :| q in c.protocols && c.protocols[q].enabled { OnMeansEnabled(c, q); }
  }

  // ---- The overrides and their translation -------------------------------------------------

  lemma ChoiceOf(d: Destination, id: string, p: Protocol)
    requires Choosable(d, id, p)
    ensures var c := ProjectedModel(d, ModelAt(d.catalog, id).value);
      PreferredOverrides(ProjectDestinationCatalog(d), id, p)
      == if ModelEffectiveOn(c) then [Override(id, p, ForceOn, true)] else Rows(id, WritableProtocols(c, CustomEndpoint), ForceOff, Some(p))
  {
    ContractOfModel(d, d.catalog, ProjectDestinationCatalog(d).models, id);
    TargetsAreAvailable(d, ModelAt(d.catalog, id).value, false);
    ShownOfModel(d, ModelAt(d.catalog, id).value, p);
  }

  ghost predicate IsOffRow(d: Destination, m: Model, r: Override, id: string, p: Protocol) {
    r.modelId == id && r.state == ForceOff && r.protocol in Available(d, m) && r.preferred == (r.protocol == p)
  }

  lemma WritableAreAvailable(d: Destination, m: Model)
    ensures forall p :: p in WritableProtocols(ProjectedModel(d, m), CustomEndpoint) <==> p in Available(d, m)
  {
    TargetsAreAvailable(d, m, false);
  }

  lemma OffRowMembers(d: Destination, m: Model, writable: seq<Protocol>, id: string, p: Protocol)
    requires forall q :: q in writable <==> q in Available(d, m)
    ensures forall r :: r in Rows(id, writable, ForceOff, Some(p)) <==> IsOffRow(d, m, r, id, p)
  {
    RowMembers(id, writable, ForceOff, Some(p));
  }

  /** The rows of a choice, by what they say. */
  lemma ChoiceRows(d: Destination, id: string, p: Protocol)
    requires Choosable(d, id, p)
    ensures var rows, m := PreferredOverrides(ProjectDestinationCatalog(d), id, p), ModelAt(d.catalog, id).value;
      && rows != []
      && (ModelEffectiveOn(ProjectedModel(d, m)) ==> rows == [Override(id, p, ForceOn, true)])
      && (!ModelEffectiveOn(ProjectedModel(d, m)) ==> forall r :: r in rows <==> IsOffRow(d, m, r, id, p))
  {
    ChoiceOf(d, id, p);
    var m := ModelAt(d.catalog, id).value;
    WritableAreAvailable(d, m);
    OffRowMembers(d, m, WritableProtocols(ProjectedModel(d, m), CustomEndpoint), id, p);
    assert IsOffRow(d, m, Override(id, p, ForceOff, true), id, p);
  }

  /** Rows that force everything off and mark one protocol as preferred. */
  lemma {:induction false} OffRowsDisable(rows: seq<Override>, available: seq<Protocol>, enabled: set<Protocol>, preferred: Option<Protocol>, q: Protocol)
    requires forall r :: r in rows ==> r.state == ForceOff && r.protocol in available
    ensures q in AfterRows(rows, available, enabled, preferred).0 <==> q in enabled && forall r :: r in rows ==> r.protocol != q
  {
    if rows != [] {
      FrontAndLast(rows);
      OffRowsDisable(rows[..|rows| - 1], available, enabled, preferred, q);
    }
  }

  lemma {:induction false} OffRowsPrefer(rows: seq<Override>, available: seq<Protocol>, enabled: set<Protocol>, preferred: Option<Protocol>, p: Protocol)
    requires forall r :: r in rows ==> r.protocol in available && r.preferred == (r.protocol == p)
    ensures AfterRows(rows, available, enabled, preferred).1 == if exists r :: r in rows && r.protocol == p then Some(p) else preferred
  {
    if rows != [] {
      FrontAndLast(rows);
      OffRowsPrefer(rows[..|rows| - 1], available, enabled, preferred, p);
    }
  }

  lemma OffRows(rows: seq<Override>, available: seq<Protocol>, enabled: set<Protocol>, preferred: Option<Protocol>, p: Protocol)
    requires forall r :: r in rows ==> r.state == ForceOff && r.protocol in available && r.preferred == (r.protocol == p)
    ensures var after := AfterRows(rows, available, enabled, preferred);
      && (forall q :: q in after.0 <==> q in enabled && !exists r :: r in rows && r.protocol == q)
      && after.1 == if exists r :: r in rows && r.protocol == p then Some(p) else preferred
  {
    forall q ensures q in AfterRows(rows, available, enabled, preferred).0 <==> q in enabled && !exists r :: r in rows && r.protocol == q {
      OffRowsDisable(rows, available, enabled, preferred, q);
    }
    OffRowsPrefer(rows, available, enabled, preferred, p);
  }

  lemma OffTranslates(d: Destination, m: Model, rows: seq<Override>, p: Protocol)
    requires p in Available(d, m)
    requires forall r :: r in rows ==> r.state == ForceOff && r.protocol in Available(d, m) && r.preferred == (r.protocol == p)
    requires forall q :: q in Available(d, m) ==> exists r :: r in rows && r.protocol == q
    ensures UpdateFor(d, m, rows) == Update(m.publicModel, false, [], Some(p))
  {
    var available := Available(d, m);
    OffRows(rows, available, EnabledBefore(m, available), PreferredOf(m, available), p);
    var enabled := AfterRows(rows, available, EnabledBefore(m, available), PreferredOf(m, available)).0;
    PickNothing(available, q => q in enabled);
  }

  lemma OnTranslates(d: Destination, m: Model, id: string, p: Protocol)
    requires p in Available(d, m) && m.enabled
    ensures UpdateFor(d, m, [Override(id, p, ForceOn, true)])
         == Update(m.publicModel, true, Pick(Available(d, m), q => q in m.protocols || q == p), Some(p))
  {
    var available := Available(d, m);
    var rows := [Override(id, p, ForceOn, true)];
    var before := EnabledBefore(m, available);
    assert rows[..0] == [];
    assert AfterRows(rows, available, before, PreferredOf(m, available)) == (before + {p}, Some(p));
    PickSame(available, q => q in before + {p}, q => q in m.protocols || q == p);
    assert p in Pick(available, q => q in before + {p});
  }

  lemma {:induction false} PickSame<T(!new)>(s: seq<T>, f: T -> bool, g: T -> bool)
    requires forall x :: x in s ==> f(x) == g(x)
    ensures Pick(s, f) == Pick(s, g)
  {
    if s != [] { PickSame(s[1..], f, g); }
  }

  /** A choice sends one update, which is the meaning of the choice; an impossible choice sends none. */
  lemma ChoiceTranslates(d: Destination, id: string, p: Protocol)
    ensures !Choosable(d, id, p) ==> ChoiceBatch(d, id, p) == []
    ensures Choosable(d, id, p) ==> var c := Chosen(d, ModelAt(d.catalog, id).value, p);
      ChoiceBatch(d, id, p) == [Update(id, c.enabled, c.protocols, Some(p))]
  {
    var rows := PreferredOverrides(ProjectDestinationCatalog(d), id, p);
    ContractOfModel(d, d.catalog, ProjectDestinationCatalog(d).models, id);
    if ModelAt(d.catalog, id).Some? { ShownOfModel(d, ModelAt(d.catalog, id).value, p); }
    if Choosable(d, id, p) {
      var k := ModelNamed(d.catalog, id);
      ChoiceRows(d, id, p);
      OneName(rows, id);
      ChosenUpdate(d, id, p);
      assert [id][..0] == [];
      assert UpdatesFor(d, rows, [id]) == [] + [UpdateFor(d, ModelAt(d.catalog, id).value, RowsOf(rows, id))];
    } else {
      assert rows == [];
    }
  }

  lemma ChosenUpdate(d: Destination, id: string, p: Protocol)
    requires Choosable(d, id, p) && ModelAt(d.catalog, id).value.publicModel == id
    ensures var m := ModelAt(d.catalog, id).value;
      var rows := PreferredOverrides(ProjectDestinationCatalog(d), id, p);
      UpdateFor(d, m, RowsOf(rows, id)) == Update(id, Chosen(d, m, p).enabled, Chosen(d, m, p).protocols, Some(p))
  {
    var m := ModelAt(d.catalog, id).value;
    var rows := PreferredOverrides(ProjectDestinationCatalog(d), id, p);
    ChoiceRows(d, id, p);
    assert RowsOf(rows, id) == rows by { PickEverything(rows, (o: Override) => o.modelId == id); }
    if ModelEffectiveOn(ProjectedModel(d, m)) {
      OnIsEnabled(d, m);
      OnTranslates(d, m, id, p);
    } else {
      OffRowsTranslate(d, m, rows, id, p);
    }
  }

  lemma OnIsEnabled(d: Destination, m: Model)
    requires ModelEffectiveOn(ProjectedModel(d, m))
    ensures m.enabled
  {
  }

  lemma OffRowsTranslate(d: Destination, m: Model, rows: seq<Override>, id: string, p: Protocol)
    requires p in Available(d, m) && forall r :: r in rows <==> IsOffRow(d, m, r, id, p)
    ensures UpdateFor(d, m, rows) == Update(m.publicModel, false, [], Some(p))
  {
    forall q | q in Available(d, m) ensures exists r :: r in rows && r.protocol == q {
      assert IsOffRow(d, m, Override(id, q, ForceOff, q == p), id, p);
    }
    OffTranslates(d, m, rows, p);
  }

  lemma {:induction false} OneName(rows: seq<Override>, id: string)
    requires rows != [] && forall r :: r in rows ==> r.modelId == id
    ensures Unique(IdsOf(rows)) == [id]
  {
    var ids := IdsOf(rows);
    var n := |ids| - 1;
    assert ids[n] == rows[n].modelId && rows[n] in rows;
    if n == 0 {
      assert ids[..0] == [] && Unique(ids[..0]) == [];
    } else {
      var front := rows[..n];
      assert forall r :: r in front ==> r in rows;
      OneName(front, id);
      assert ids[..n] == IdsOf(front);
    }
  }

  // ---- The gateway -----------------------------------------------------------------------

  lemma ChoiceApplies(d: Destination, m: Model, id: string, p: Protocol)
    requires p in Available(d, m)
    ensures var c := Chosen(d, m, p);
      ApplyUpdate(m, Update(id, c.enabled, c.protocols, Some(p)), GatewayAvailable(d, m)) == if RoutesAgree(d, m) then Some(c) else None
  {
    if RoutesAgree(d, m) {
      assert forall q :: q in Available(d, m) <==> q in GatewayAvailable(d, m);
    } else {
      assert GatewayAvailable(d, m) == [];
    }
    assert Chosen(d, m, p).enabled ==> p in Chosen(d, m, p).protocols;
  }

  /**
   * The gateway accepts a choice exactly when the destination is editable. Then
   * that model, and no other, is as chosen: the row shows the protocol as
   * preferred and is on or off as it was.
   */
  lemma ChoiceIsFaithful(lower: string -> string, key: string -> string, d: Destination, i: nat, p: Protocol)
    requires WellKept(lower, key, d) && i < |d.catalog| && p in Available(d, d.catalog[i])
    ensures var m := d.catalog[i];
      GatewayApply(lower, key, d, ChoiceBatch(d, m.publicModel, p))
      == if Editable(d) then Some(d.catalog[i := Chosen(d, m, p)]) else None
    ensures var m := d.catalog[i];
      var e := d.(catalog := d.catalog[i := Chosen(d, m, p)]);
      && ProjectedModel(e, e.catalog[i]).preferred == p
      && ModelEffectiveOn(ProjectedModel(e, e.catalog[i])) == ModelEffectiveOn(ProjectedModel(d, m))
  {
    var m := d.catalog[i];
    var k := ModelNamed(d.catalog, m.publicModel);
    assert k == i;
    ChoiceTranslates(d, m.publicModel, p);
    ChoiceApplies(d, m, m.publicModel, p);
    if Editable(d) { EditableRoutesAgree(lower, key, d, m); }
    OneUpdate(lower, key, d, i, ChoiceBatch(d, m.publicModel, p)[0]);
    ChosenIsShown(d, m, p);
    SameRoutes(d, d.(catalog := d.catalog[i := Chosen(d, m, p)]), Chosen(d, m, p));
  }

  lemma OneUpdate(lower: string -> string, key: string -> string, d: Destination, i: nat, u: Update)
    requires WellNamed(lower, key, d) && i < |d.catalog| && u.publicModel == d.catalog[i].publicModel
    ensures ApplyUpdates(lower, key, d, [u])
         == var m := ApplyUpdate(d.catalog[i], u, GatewayAvailable(d, d.catalog[i]));
            if m.None? then None else Some(d.catalog[i := m.value])
  {
    assert [u][..0] == [] && ApplyUpdates(lower, key, d, []) == Some(d.catalog);
    assert key(u.publicModel) == lower(d.catalog[i].publicModel);
    assert FindLower(lower, d.catalog, key(u.publicModel)) == i;
  }
}
