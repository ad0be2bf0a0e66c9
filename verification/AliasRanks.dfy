/**
 * Routing ranks of an Alias row (src/domain/provider-aliases.ts): an index
 * built once per table, against the direct definition over accounts and
 * identities. `fold` stands for toLocaleLowerCase.
 */
module AliasRanks {
  import opened Lists
  import opened AliasIndex

  datatype ModelScope = All | Only(models: seq<string>)
  datatype Account = Account(id: string, providerId: string, enabled: bool)
  datatype Binding = Binding(enabled: bool, rank: nat, scope: ModelScope)
  /** `legacyAccount` is the legacy account id, or None for another kind of legacy row. */
  datatype Credential = Credential(legacyAccount: Option<string>, inference: bool, enabled: bool, bindings: seq<Binding>)
  datatype Identity = Identity(credentials: seq<Credential>)

  datatype RankBinding = RankBinding(rank: nat, scope: ModelScope)
  datatype RankIndex = RankIndex(
    enabledAccounts: set<string>,
    accountsByProvider: map<string, set<string>>,
    bindingsByAccount: map<string, seq<RankBinding>>)

  predicate ScopeAllows(fold: string -> string, scope: ModelScope, publicModel: string) {
    scope.All? || exists i :: 0 <= i < |scope.models| && fold(scope.models[i]) == fold(publicModel)
  }

  // ---- The direct definition --------------------------------------------------------

  /** Some enabled account has this id (and, if given, this provider). */
  ghost predicate EnabledAccount(accounts: seq<Account>, id: string, provider: Option<string>) {
    exists a :: a in accounts && a.enabled && a.id == id && (provider.None? || a.providerId == provider.value)
  }

  /** The accounts a row speaks of: its own Custom account, or all of its provider's. */
  ghost predicate Candidate(row: Row, accounts: seq<Account>, id: string) {
    if row.customAccountId.Some? && row.customAccountId.value != ""
    then id == row.customAccountId.value && EnabledAccount(accounts, id, None)
    else EnabledAccount(accounts, id, Some(row.providerId))
  }

  predicate Gives(credential: Credential, id: string, b: RankBinding) {
    && credential.legacyAccount == Some(id) && credential.inference && credential.enabled
    && exists x :: x in credential.bindings && x.enabled && RankBinding(x.rank, x.scope) == b
  }

  ghost predicate GivenBy(identities: seq<Identity>, id: string, b: RankBinding) {
    exists i, c :: 0 <= i < |identities| && c in identities[i].credentials && Gives(c, id, b)
  }

  /** `rank` is the rank of an enabled binding, on an enabled inference credential of an enabled candidate account, whose scope allows the public name. */
  ghost predicate Serves(fold: string -> string, row: Row, accounts: seq<Account>, identities: seq<Identity>, rank: nat) {
    row.routable && exists id, scope ::
      Candidate(row, accounts, id) && GivenBy(identities, id, RankBinding(rank, scope)) && ScopeAllows(fold, scope, row.publicModel)
  }

  /** An enabled account the row speaks of: of its own Custom account's id, or else of its provider. */
  ghost predicate IsAccountOf(row: Row, a: Account) {
    && a.enabled
    && (row.customAccountId.Some? && row.customAccountId.value != "" ==> a.id == row.customAccountId.value)
    && (row.customAccountId.None? || row.customAccountId.value == "" ==> a.providerId == row.providerId)
  }

  /** A list scope allows the names in it, compared folded. */
  ghost predicate BindingServes(fold: string -> string, x: Binding, name: string, rank: nat) {
    x.enabled && x.rank == rank && (x.scope.Only? ==> exists n :: n in x.scope.models && fold(n) == fold(name))
  }

  /** The direct definition, down to the fields of the records. */
  lemma ServesExactly(fold: string -> string, row: Row, accounts: seq<Account>, identities: seq<Identity>, rank: nat)
    ensures Serves(fold, row, accounts, identities, rank) <==>
      row.routable && exists a, i, c, x ::
        && a in accounts && IsAccountOf(row, a)
        && 0 <= i < |identities| && c in identities[i].credentials
        && c.legacyAccount == Some(a.id) && c.inference && c.enabled
        && x in c.bindings && BindingServes(fold, x, row.publicModel, rank)
  {
    if Serves(fold, row, accounts, identities, rank) {
      var id, scope :| Candidate(row, accounts, id) && GivenBy(identities, id, RankBinding(rank, scope)) && ScopeAllows(fold, scope, row.publicModel);
      var a :| a in accounts && IsAccountOf(row, a) && a.id == id;
      var i, c :| 0 <= i < |identities| && c in identities[i].credentials && Gives(c, id, RankBinding(rank, scope));
      var x :| x in c.bindings && x.enabled && RankBinding(x.rank, x.scope) == RankBinding(rank, scope);
      if scope.Only? {
        var k :| 0 <= k < |scope.models| && fold(scope.models[k]) == fold(row.publicModel);
        assert scope.models[k] in scope.models;
      }
      assert BindingServes(fold, x, row.publicModel, rank);
    }
    if row.routable {
      forall a, i, c, x |
        && a in accounts && IsAccountOf(row, a)
        && 0 <= i < |identities| && c in identities[i].credentials
        && c.legacyAccount == Some(a.id) && c.inference && c.enabled
        && x in c.bindings && BindingServes(fold, x, row.publicModel, rank)
        ensures Serves(fold, row, accounts, identities, rank)
      {
        assert Candidate(row, accounts, a.id);
        assert Gives(c, a.id, RankBinding(rank, x.scope));
        assert GivenBy(identities, a.id, RankBinding(rank, x.scope));
        ListedNameIsAllowed(fold, x.scope, row.publicModel);
      }
    }
  }

  lemma ListedNameIsAllowed(fold: string -> string, scope: ModelScope, name: string)
    ensures ScopeAllows(fold, scope, name) <==> scope.All? || exists n :: n in scope.models && fold(n) == fold(name)
  {
  }

  // ---- Building the index --------------------------------------------------------------

  ghost predicate InGroup(groups: map<string, set<string>>, provider: string, id: string) {
    provider in groups && id in groups[provider]
  }

  method IndexAccounts(accounts: seq<Account>) returns (enabled: set<string>, byProvider: map<string, set<string>>)
    ensures forall id :: id in enabled <==> EnabledAccount(accounts, id, None)
    ensures forall p, id :: InGroup(byProvider, p, id) <==> EnabledAccount(accounts, id, Some(p))
  {
    enabled, byProvider := {}, map[];
    for k := 0 to |accounts|
      invariant forall id :: id in enabled <==> EnabledAccount(accounts[..k], id, None)
      invariant forall p, id :: InGroup(byProvider, p, id) <==> EnabledAccount(accounts[..k], id, Some(p))
    {
      var a := accounts[k];
      forall id, p ensures EnabledAccount(accounts[..k + 1], id, p) <==>
        EnabledAccount(accounts[..k], id, p) || (a.enabled && a.id == id && (p.None? || a.providerId == p.value))
      {
        OneMoreAccount(accounts, k, id, p);
      }
      if a.enabled {
        enabled := enabled + {a.id};
        ghost var before := byProvider;
        byProvider := byProvider[a.providerId := (if a.providerId in byProvider then byProvider[a.providerId] else {}) + {a.id}];
        assert forall p, id :: InGroup(byProvider, p, id) <==> InGroup(before, p, id) || (p == a.providerId && id == a.id);
      }
    }
    assert accounts[..|accounts|] == accounts;
  }

  lemma OneMoreAccount(accounts: seq<Account>, k: nat, id: string, p: Option<string>)
    requires k < |accounts|
    ensures EnabledAccount(accounts[..k + 1], id, p) <==>
      EnabledAccount(accounts[..k], id, p)
      || (accounts[k].enabled && accounts[k].id == id && (p.None? || accounts[k].providerId == p.value))
  {
    assert accounts[..k + 1] == accounts[..k] + [accounts[k]];
    assert forall a :: a in accounts[..k + 1] <==> a in accounts[..k] || a == accounts[k];
  }

  ghost predicate Listed(index: map<string, seq<RankBinding>>, id: string, b: RankBinding) {
    id in index && b in index[id]
  }

  /** flatMap over the bindings: the enabled ones, as rank and scope. */
  function EnabledBindings(bindings: seq<Binding>): (r: seq<RankBinding>)
    ensures forall b :: b in r <==> exists x :: x in bindings && x.enabled && RankBinding(x.rank, x.scope) == b
  {
    if bindings == [] then []
    else
      assert bindings == [bindings[0]] + bindings[1..];
      (if bindings[0].enabled then [RankBinding(bindings[0].rank, bindings[0].scope)] else []) + EnabledBindings(bindings[1..])
  }

  method AddCredential(index: map<string, seq<RankBinding>>, enabled: set<string>, credential: Credential)
    returns (next: map<string, seq<RankBinding>>)
    ensures forall id, b :: Listed(next, id, b) <==> Listed(index, id, b) || (id in enabled && Gives(credential, id, b))
  {
    next := index;
    if credential.legacyAccount.None? || credential.legacyAccount.value !in enabled { return; }
    if !credential.inference || !credential.enabled { return; }
    var bindings := EnabledBindings(credential.bindings);
    assert forall id, b :: Gives(credential, id, b) <==> credential.legacyAccount.value == id && b in bindings;
    if |bindings| == 0 { return; }
    var id := credential.legacyAccount.value;
    next := index[id := (if id in index then index[id] else []) + bindings];
  }

  method IndexBindings(identities: seq<Identity>, enabled: set<string>) returns (index: map<string, seq<RankBinding>>)
    ensures forall id, b :: Listed(index, id, b) <==> id in enabled && GivenBy(identities, id, b)
  {
    index := map[];
    for i := 0 to |identities|
      invariant forall id, b :: Listed(index, id, b) <==> id in enabled && GivenBy(identities[..i], id, b)
    {
      var credentials := identities[i].credentials;
      ghost var before := index;
      for j := 0 to |credentials|
        invariant forall id, b :: Listed(index, id, b) <==>
          Listed(before, id, b) || (id in enabled && exists c :: c in credentials[..j] && Gives(c, id, b))
      {
        assert credentials[..j + 1] == credentials[..j] + [credentials[j]];
        index := AddCredential(index, enabled, credentials[j]);
      }
      assert credentials[..|credentials|] == credentials;
      forall id, b ensures GivenBy(identities[..i + 1], id, b) <==>
        GivenBy(identities[..i], id, b) || exists c :: c in credentials && Gives(c, id, b)
      {
        OneMoreIdentity(identities, i, id, b);
      }
    }
    assert identities[..|identities|] == identities;
  }

  lemma OneMoreIdentity(identities: seq<Identity>, k: nat, id: string, b: RankBinding)
    requires k < |identities|
    ensures GivenBy(identities[..k + 1], id, b) <==>
      GivenBy(identities[..k], id, b) || exists c :: c in identities[k].credentials && Gives(c, id, b)
  {
    var longer := identities[..k + 1];
    if GivenBy(identities[..k], id, b) {
      var i, c :| 0 <= i < k && c in identities[..k][i].credentials && Gives(c, id, b);
      assert c in longer[i].credentials;
    }
    if c :| c in identities[k].credentials && Gives(c, id, b) { assert c in longer[k].credentials; }
    if GivenBy(longer, id, b) {
      var i, c :| 0 <= i < |longer| && c in longer[i].credentials && Gives(c, id, b);
      if i < k { assert c in identities[..k][i].credentials; }
    }
  }

  /** What the index holds, in terms of the data it was built from. */
  ghost predicate Indexes(index: RankIndex, accounts: seq<Account>, identities: seq<Identity>) {
    && (forall id :: id in index.enabledAccounts <==> EnabledAccount(accounts, id, None))
    && (forall p, id :: InGroup(index.accountsByProvider, p, id) <==> EnabledAccount(accounts, id, Some(p)))
    && (forall id, b :: Listed(index.bindingsByAccount, id, b) <==> EnabledAccount(accounts, id, None) && GivenBy(identities, id, b))
  }

  method AliasRoutingRankIndex(accounts: seq<Account>, identities: seq<Identity>) returns (index: RankIndex)
    ensures Indexes(index, accounts, identities)
  {
    var enabled, byProvider := IndexAccounts(accounts);
    var bindings := IndexBindings(identities, enabled);
    index := RankIndex(enabled, byProvider, bindings);
  }

  // ---- Using it -----------------------------------------------------------------------------

  ghost predicate RankAmong(fold: string -> string, ids: set<string>, index: map<string, seq<RankBinding>>, publicModel: string, rank: nat) {
    exists id, scope :: id in ids && Listed(index, id, RankBinding(rank, scope)) && ScopeAllows(fold, scope, publicModel)
  }

  method RanksForAccounts(fold: string -> string, ids: set<string>, index: map<string, seq<RankBinding>>, publicModel: string)
    returns (ranks: seq<nat>)
    ensures Ascending(ranks)
    ensures forall rank: nat :: rank in ranks <==> RankAmong(fold, ids, index, publicModel, rank)
  {
    var found: set<nat> := {};
    var rest := ids;
    while rest != {}
      invariant rest <= ids
      invariant forall rank: nat :: rank in found <==> RankAmong(fold, ids - rest, index, publicModel, rank)
    {
      var id :| id in rest;
      ghost var done := ids - rest;
      var bindings := if id in index then index[id] else [];
      ghost var before := found;
      for j := 0 to |bindings|
        invariant forall rank: nat :: rank in found <==>
          rank in before || exists scope :: RankBinding(rank, scope) in bindings[..j] && ScopeAllows(fold, scope, publicModel)
      {
        assert bindings[..j + 1] == bindings[..j] + [bindings[j]];
        if ScopeAllows(fold, bindings[j].scope, publicModel) { found := found + {bindings[j].rank}; }
      }
      assert bindings[..|bindings|] == bindings;
      rest := rest - {id};
      forall rank: nat ensures rank in found <==> RankAmong(fold, ids - rest, index, publicModel, rank) {
        assert forall x :: x in ids - rest <==> x in done || x == id;
        assert forall scope :: RankBinding(rank, scope) in bindings <==> Listed(index, id, RankBinding(rank, scope));
      }
    }
    assert ids - rest == ids;
    ranks := SortedElements(found);
  }

  method SortedElements(found: set<nat>) returns (sorted: seq<nat>)
    ensures Ascending(sorted) && forall x :: x in sorted <==> x in found
  {
    var rest, items: seq<nat> := found, [];
    while rest != {}
      invariant rest <= found && Distinct(items) && forall x :: x in items <==> x in found - rest
    {
      var x :| x in rest;
      assert x !in items;
      rest, items := rest - {x}, items + [x];
    }
    sorted := SortAscending(items);
  }

  method AliasRoutingRanksFromIndex(fold: string -> string, row: Row, index: RankIndex) returns (ranks: seq<nat>)
    ensures Ascending(ranks)
    ensures forall rank: nat :: rank in ranks <==>
      row.routable && RankAmong(fold, CandidateIds(row, index), index.bindingsByAccount, row.publicModel, rank)
  {
    if !row.routable { return []; }
    ranks := RanksForAccounts(fold, CandidateIds(row, index), index.bindingsByAccount, row.publicModel);
  }

  function CandidateIds(row: Row, index: RankIndex): set<string> {
    if row.customAccountId.Some? && row.customAccountId.value != "" then
      if row.customAccountId.value in index.enabledAccounts then {row.customAccountId.value} else {}
    else if row.providerId in index.accountsByProvider then index.accountsByProvider[row.providerId]
    else {}
  }

  /** The index answers as the direct definition does, for any accounts, identities and row. */
  lemma IndexIsFaithful(fold: string -> string, row: Row, index: RankIndex, accounts: seq<Account>, identities: seq<Identity>, rank: nat)
    requires Indexes(index, accounts, identities)
    ensures row.routable && RankAmong(fold, CandidateIds(row, index), index.bindingsByAccount, row.publicModel, rank)
      <==> Serves(fold, row, accounts, identities, rank)
  {
    forall id ensures id in CandidateIds(row, index) <==> Candidate(row, accounts, id) {
      assert InGroup(index.accountsByProvider, row.providerId, id) <==> EnabledAccount(accounts, id, Some(row.providerId));
    }
    forall id | Candidate(row, accounts, id) ensures EnabledAccount(accounts, id, None) {}
  }

  method AliasRowRoutingRanks(fold: string -> string, row: Row, accounts: seq<Account>, identities: seq<Identity>)
    returns (ranks: seq<nat>)
    ensures Ascending(ranks)
    ensures forall rank: nat :: rank in ranks <==> Serves(fold, row, accounts, identities, rank)
  {
    var index := AliasRoutingRankIndex(accounts, identities);
    ranks := AliasRoutingRanksFromIndex(fold, row, index);
    forall rank: nat ensures rank in ranks <==> Serves(fold, row, accounts, identities, rank) {
      IndexIsFaithful(fold, row, index, accounts, identities, rank);
    }
  }
}
