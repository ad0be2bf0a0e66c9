/** How configured rules combine: destination over global over builtin, and the limits the form enforces. */
module PolicyOverlay {
  import opened Lists
  import PolicyDraft

  const MAX_CONFIGURED_RULES := 128
  const MAX_ENABLED_PER_DESTINATION := 32
  const DEFAULT_BACKOFF := Backoff(30, 300)

  datatype Backoff = Backoff(initialSeconds: nat, maxSeconds: nat)
  datatype Builtin = Builtin(id: string, backoff: Backoff)

  datatype Rule =
    | Custom(rule: PolicyDraft.CustomRule)
    | BuiltinOverride(builtinId: string, target: Option<string>, isEnabled: bool, backoff: Option<Backoff>)
  {
    function Id(): string { if Custom? then rule.id else builtinId }
    function Destination(): Option<string> { if Custom? then rule.destinationId else target }
    predicate Enabled() { if Custom? then rule.enabled else isEnabled }
  }

  datatype Issue = DuplicateRule | TooManyRules | TooManyEnabledForDestination | UnknownBuiltin

  // ---- Insertion-ordered maps keyed by rule id ----------------------------------------

  /** Map.set: an existing key keeps its place. */
  function Set(mapped: seq<Rule>, rule: Rule): seq<Rule> {
    var i := Place(mapped, rule.Id());
    if i < |mapped| then mapped[i := rule] else mapped + [rule]
  }

  function Place(mapped: seq<Rule>, id: string): (i: nat)
    ensures i <= |mapped|
    ensures i < |mapped| ==> mapped[i].Id() == id
    ensures forall j :: 0 <= j < i ==> mapped[j].Id() != id
  {
    if mapped == [] || mapped[0].Id() == id then 0 else 1 + Place(mapped[1..], id)
  }

  function SetAll(mapped: seq<Rule>, rules: seq<Rule>): seq<Rule> {
    if rules == [] then mapped else Set(SetAll(mapped, rules[..|rules| - 1]), rules[|rules| - 1])
  }

  method OverlayRules(base: seq<Rule>, overlay: seq<Rule>) returns (mapped: seq<Rule>)
    ensures mapped == Overlay(base, overlay)
  {
    mapped := [];
    for i := 0 to |base|
      invariant mapped == SetAll([], base[..i])
    {
      assert base[..i + 1][..i] == base[..i];
      mapped := Set(mapped, base[i]);
    }
    assert base[..|base|] == base;
    for i := 0 to |overlay|
      invariant mapped == SetAll(SetAll([], base), overlay[..i])
    {
      assert overlay[..i + 1][..i] == overlay[..i];
      mapped := Set(mapped, overlay[i]);
    }
    assert overlay[..|overlay|] == overlay;
  }

  function Overlay(base: seq<Rule>, overlay: seq<Rule>): seq<Rule> {
    SetAll(SetAll([], base), overlay)
  }

  // ---- Layers ---------------------------------------------------------------------------

  function CatalogAsRules(builtins: seq<Builtin>): (rules: seq<Rule>)
    ensures |rules| == |builtins|
    ensures forall i :: 0 <= i < |rules| ==> rules[i] == BuiltinOverride(builtins[i].id, None, true, Some(builtins[i].backoff))
  {
    seq(|builtins|, i requires 0 <= i < |builtins| => BuiltinOverride(builtins[i].id, None, true, Some(builtins[i].backoff)))
  }

  function Catalog(builtins: seq<Builtin>): seq<Rule> {
    CatalogAsRules(if builtins != [] then builtins else [Builtin(PolicyDraft.BUILTIN_GOAT_ID, DEFAULT_BACKOFF)])
  }

  function RulesForDestination(rules: seq<Rule>, destination: Option<string>): seq<Rule> {
    if rules == [] then []
    else (if rules[0].Destination() == destination then [rules[0]] else []) + RulesForDestination(rules[1..], destination)
  }

  function EffectiveRules(rules: seq<Rule>, builtins: seq<Builtin>, destination: Option<string>): seq<Rule> {
    var global := Overlay(Catalog(builtins), RulesForDestination(rules, None));
    if destination == None then global else Overlay(global, RulesForDestination(rules, destination))
  }

  function EnabledCount(rules: seq<Rule>): (n: nat)
    ensures n == |set i | 0 <= i < |rules| && rules[i].Enabled()|
  {
    if rules == [] then 0
    else
      var last := |rules| - 1;
      var before, all := set i | 0 <= i < last && rules[..last][i].Enabled(), set i | 0 <= i < |rules| && rules[i].Enabled();
      assert all == before + if rules[last].Enabled() then {last} else {};
      EnabledCount(rules[..last]) + if rules[last].Enabled() then 1 else 0
  }

  function EnabledEffectiveCount(rules: seq<Rule>, builtins: seq<Builtin>, destination: Option<string>): nat {
    EnabledCount(EffectiveRules(rules, builtins, destination))
  }

  // ---- Resolution --------------------------------------------------------------------------

  ghost predicate DistinctIds(rules: seq<Rule>) {
    forall i, j :: 0 <= i < j < |rules| ==> rules[i].Id() != rules[j].Id()
  }

  /** The last rule with this id: what a map built from the list holds. */
  function Winner(rules: seq<Rule>, id: string): Option<Rule> {
    if rules == [] then None
    else if rules[|rules| - 1].Id() == id then Some(rules[|rules| - 1])
    else Winner(rules[..|rules| - 1], id)
  }

  function OrElse(first: Option<Rule>, second: Option<Rule>): Option<Rule> {
    if first.Some? then first else second
  }

  lemma {:induction false} SetAllResolves(mapped: seq<Rule>, rules: seq<Rule>, id: string)
    requires DistinctIds(mapped)
    ensures DistinctIds(SetAll(mapped, rules))
    ensures Winner(SetAll(mapped, rules), id) == OrElse(Winner(rules, id), Winner(mapped, id))
  {
    if rules != [] {
      var rest := rules[..|rules| - 1];
      SetAllResolves(mapped, rest, id);
      SetResolves(SetAll(mapped, rest), rules[|rules| - 1], id);
    }
  }

  lemma SetKeepsIdsDistinct(mapped: seq<Rule>, rule: Rule)
    requires DistinctIds(mapped)
    ensures DistinctIds(Set(mapped, rule))
  {
  }

  lemma SetResolves(mapped: seq<Rule>, rule: Rule, id: string)
    requires DistinctIds(mapped)
    ensures DistinctIds(Set(mapped, rule))
    ensures Winner(Set(mapped, rule), id) == if rule.Id() == id then Some(rule) else Winner(mapped, id)
  {
    SetKeepsIdsDistinct(mapped, rule);
    WinnerIsTheMember(mapped, id);
    WinnerIsTheMember(Set(mapped, rule), id);
    var i, j := Place(mapped, id), Place(Set(mapped, rule), id);
    var k := Place(mapped, rule.Id());
    if rule.Id() == id {
      assert Set(mapped, rule)[k] == rule;
    } else if i < |mapped| {
      assert Set(mapped, rule)[i] == mapped[i];
    }
  }

  /** In a list of distinct ids the winner is the one member with that id. */
  lemma {:induction false} WinnerIsTheMember(rules: seq<Rule>, id: string)
    requires DistinctIds(rules)
    ensures Winner(rules, id) == if Place(rules, id) < |rules| then Some(rules[Place(rules, id)]) else None
  {
    if rules != [] {
      var front := rules[..|rules| - 1];
      WinnerIsTheMember(front, id);
      var i := Place(rules, id);
      if i < |front| { assert front[i].Id() == id; }
    }
  }

  /**
   * Each id appears once among the effective rules, and resolves to the
   * destination's own rule, else the global one, else the builtin.
   */
  lemma EffectiveRulesResolve(rules: seq<Rule>, builtins: seq<Builtin>, destination: Option<string>, id: string)
    ensures var e := EffectiveRules(rules, builtins, destination);
      && DistinctIds(e)
      && Winner(e, id) == OrElse(if destination.Some? then Winner(RulesForDestination(rules, destination), id) else None,
                                 OrElse(Winner(RulesForDestination(rules, None), id), Winner(Catalog(builtins), id)))
  {
    var catalog := Catalog(builtins);
    var own := RulesForDestination(rules, None);
    SetAllResolves([], catalog, id);
    SetAllResolves(SetAll([], catalog), own, id);
    if destination.Some? {
      var global := Overlay(catalog, own);
      SetAllResolves([], global, id);
      SetAllResolves(SetAll([], global), RulesForDestination(rules, destination), id);
    }
  }

  ghost predicate At(rule: Rule, destination: Option<string>, id: string) {
    rule.Destination() == destination && rule.Id() == id
  }

  lemma {:induction false} WinnerOfLonger(first: Rule, tail: seq<Rule>, id: string)
    ensures Winner([first] + tail, id) == OrElse(Winner(tail, id), if first.Id() == id then Some(first) else None)
  {
    if tail != [] {
      assert ([first] + tail)[..|tail|] == [first] + tail[..|tail| - 1];
      WinnerOfLonger(first, tail[..|tail| - 1], id);
    }
  }

  ghost predicate LastAt(rules: seq<Rule>, destination: Option<string>, id: string, k: nat) {
    && k < |rules| && At(rules[k], destination, id)
    && (forall j :: k < j < |rules| ==> !At(rules[j], destination, id))
  }

  ghost predicate NoneAt(rules: seq<Rule>, destination: Option<string>, id: string) {
    forall i :: 0 <= i < |rules| ==> !At(rules[i], destination, id)
  }

  lemma {:induction false} NoneWins(rules: seq<Rule>, destination: Option<string>, id: string)
    requires NoneAt(rules, destination, id)
    ensures Winner(RulesForDestination(rules, destination), id).None?
  {
    if rules != [] {
      NoneWins(rules[1..], destination, id);
      assert !At(rules[0], destination, id);
      WinnerOfLonger(rules[0], RulesForDestination(rules[1..], destination), id);
      assert [] + RulesForDestination(rules[1..], destination) == RulesForDestination(rules[1..], destination);
    }
  }

  /** The rule that counts for an id on one layer is the last one the list has for it. */
  lemma {:induction false} WinnerIsLast(rules: seq<Rule>, destination: Option<string>, id: string, k: nat)
    requires LastAt(rules, destination, id, k)
    ensures Winner(RulesForDestination(rules, destination), id) == Some(rules[k])
  {
    var rest := rules[1..];
    var tail := RulesForDestination(rest, destination);
    if k == 0 {
      assert NoneAt(rest, destination, id);
      NoneWins(rest, destination, id);
    } else {
      assert LastAt(rest, destination, id, k - 1);
      WinnerIsLast(rest, destination, id, k - 1);
      assert [] + tail == tail;
    }
    WinnerOfLonger(rules[0], tail, id);
  }

  lemma {:induction false} LastExists(rules: seq<Rule>, destination: Option<string>, id: string)
    ensures NoneAt(rules, destination, id) || exists k: nat :: LastAt(rules, destination, id, k)
  {
    if rules != [] {
      var last := |rules| - 1;
      if At(rules[last], destination, id) {
        assert LastAt(rules, destination, id, last);
      } else {
        LastExists(rules[..last], destination, id);
        if k: nat :| LastAt(rules[..last], destination, id, k) { assert LastAt(rules, destination, id, k); }
      }
    }
  }

  /** The rule in force, by place: the destination's last one for the id, or else the last global one. */
  lemma ConfiguredRuleInForce(rules: seq<Rule>, builtins: seq<Builtin>, destination: Option<string>, id: string, k: nat)
    requires LastAt(rules, destination, id, k)
      || (LastAt(rules, None, id, k) && NoneAt(rules, destination, id))
    ensures Winner(EffectiveRules(rules, builtins, destination), id) == Some(rules[k])
  {
    EffectiveRulesResolve(rules, builtins, destination, id);
    if LastAt(rules, destination, id, k) {
      WinnerIsLast(rules, destination, id, k);
    } else {
      NoneWins(rules, destination, id);
      WinnerIsLast(rules, None, id, k);
    }
  }

  /** Without a configured rule the builtin is in force, enabled with its own backoff; the one default if there is no catalog. */
  lemma BuiltinInForce(rules: seq<Rule>, builtins: seq<Builtin>, destination: Option<string>, k: nat)
    requires k < |builtins| && forall j :: k < j < |builtins| ==> builtins[j].id != builtins[k].id
    requires NoneAt(rules, destination, builtins[k].id) && NoneAt(rules, None, builtins[k].id)
    ensures Winner(EffectiveRules(rules, builtins, destination), builtins[k].id) ==
            Some(BuiltinOverride(builtins[k].id, None, true, Some(builtins[k].backoff)))
  {
    EffectiveRulesResolve(rules, builtins, destination, builtins[k].id);
    NoneWins(rules, destination, builtins[k].id);
    NoneWins(rules, None, builtins[k].id);
    LastOfListWins(Catalog(builtins), k);
  }

  lemma {:induction false} LastOfListWins(rules: seq<Rule>, k: nat)
    requires k < |rules| && forall j :: k < j < |rules| ==> rules[j].Id() != rules[k].Id()
    ensures Winner(rules, rules[k].Id()) == Some(rules[k])
  {
    if k < |rules| - 1 { LastOfListWins(rules[..|rules| - 1], k); }
  }

  /** Nothing else is in force: an id no rule and no builtin has is not among the effective rules. */
  lemma UnknownIdIsNotInForce(rules: seq<Rule>, builtins: seq<Builtin>, destination: Option<string>, id: string)
    requires NoneAt(rules, destination, id) && NoneAt(rules, None, id)
    requires forall b :: b in builtins ==> b.id != id
    ensures Winner(EffectiveRules(rules, builtins, destination), id) ==
            if builtins == [] && id == PolicyDraft.BUILTIN_GOAT_ID
            then Some(BuiltinOverride(id, None, true, Some(Backoff(30, 300)))) else None
  {
    EffectiveRulesResolve(rules, builtins, destination, id);
    NoneWins(rules, destination, id);
    NoneWins(rules, None, id);
    NoWinner(Catalog(builtins), id);
    if builtins == [] && id == PolicyDraft.BUILTIN_GOAT_ID { LastOfListWins(Catalog(builtins), 0); }
  }

  lemma {:induction false} NoWinner(rules: seq<Rule>, id: string)
    ensures Winner(rules, id).None? <==> forall i :: 0 <= i < |rules| ==> rules[i].Id() != id
  {
    if rules != [] { NoWinner(rules[..|rules| - 1], id); }
  }

  // ---- Order ---------------------------------------------------------------------------------

  function Ids(rules: seq<Rule>): (ids: seq<string>)
    ensures |ids| == |rules| && forall i :: 0 <= i < |ids| ==> ids[i] == rules[i].Id()
  {
    seq(|rules|, i requires 0 <= i < |rules| => rules[i].Id())
  }

  lemma SetKeepsPlaces(mapped: seq<Rule>, rule: Rule)
    ensures Ids(Set(mapped, rule)) == if rule.Id() in Ids(mapped) then Ids(mapped) else Ids(mapped) + [rule.Id()]
  {
    var i := Place(mapped, rule.Id());
    if i < |mapped| { assert Ids(mapped)[i] == rule.Id(); }
  }

  lemma SettingIsMentioning(ids: seq<string>, mapped: seq<Rule>, rule: Rule)
    requires Ids(mapped) == Unique(ids)
    ensures Ids(Set(mapped, rule)) == Unique(ids + [rule.Id()])
  {
    SetKeepsPlaces(mapped, rule);
    assert (ids + [rule.Id()])[..|ids|] == ids;
  }

  lemma IdsOfLonger(rules: seq<Rule>)
    requires rules != []
    ensures Ids(rules) == Ids(rules[..|rules| - 1]) + [rules[|rules| - 1].Id()]
  {
  }

  lemma {:induction false} SetAllKeepsPlaces(first: seq<string>, mapped: seq<Rule>, rules: seq<Rule>)
    requires Ids(mapped) == Unique(first)
    ensures Ids(SetAll(mapped, rules)) == Unique(first + Ids(rules))
  {
    if rules == [] {
      assert first + Ids(rules) == first;
    } else {
      var front, last := rules[..|rules| - 1], rules[|rules| - 1];
      SetAllKeepsPlaces(first, mapped, front);
      SettingIsMentioning(first + Ids(front), SetAll(mapped, front), last);
      IdsOfLonger(rules);
      assert first + Ids(rules) == (first + Ids(front)) + [last.Id()];
    }
  }

  /** Overlaid rules keep the places of the base, and new ids follow in order of first mention. */
  lemma OverlayOrder(base: seq<Rule>, overlay: seq<Rule>)
    ensures Ids(Overlay(base, overlay)) == Unique(Ids(base) + Ids(overlay))
  {
    SetAllKeepsPlaces([], [], base);
    assert [] + Ids(base) == Ids(base);
    SetAllKeepsPlaces(Ids(base), SetAll([], base), overlay);
  }

  // ---- Finite validation ---------------------------------------------------------------------

  function RuleKey(rule: Rule): string {
    (if rule.Destination().None? then "" else rule.Destination().value) + ['\0'] + rule.Id()
  }

  /** The key tells apart any two places a rule can have, for destinations without the separator and not empty. */
  lemma KeysTellApart(a: Rule, b: Rule)
    requires Nameable(a.Destination()) && Nameable(b.Destination())
    ensures RuleKey(a) == RuleKey(b) <==> At(a, b.Destination(), b.Id())
  {
    SeparatorIsFound(if a.Destination().None? then "" else a.Destination().value, a.Id());
    SeparatorIsFound(if b.Destination().None? then "" else b.Destination().value, b.Id());
  }

  ghost predicate Nameable(destination: Option<string>) {
    destination.Some? ==> destination.value != "" && '\0' !in destination.value
  }

  lemma SeparatorIsFound(prefix: string, id: string)
    requires '\0' !in prefix
    ensures IndexOf(prefix + ['\0'] + id, '\0') == |prefix|
    ensures (prefix + ['\0'] + id)[..|prefix|] == prefix && (prefix + ['\0'] + id)[|prefix| + 1..] == id
  {
    assert (prefix + ['\0'] + id)[|prefix|] == '\0';
  }

  ghost predicate RepeatsEarlier(rules: seq<Rule>, j: nat)
    requires j < |rules|
  {
    exists i :: 0 <= i < j && RuleKey(rules[i]) == RuleKey(rules[j])
  }

  predicate IsUnknown(rule: Rule, builtins: seq<Builtin>) {
    rule.BuiltinOverride? && rule.Id() !in KnownIds(builtins)
  }

  predicate Crowded(rules: seq<Rule>, builtins: seq<Builtin>, destination: Option<string>) {
    EnabledEffectiveCount(rules, builtins, destination) > MAX_ENABLED_PER_DESTINATION
  }

  function KnownIds(builtins: seq<Builtin>): set<string> {
    {PolicyDraft.BUILTIN_GOAT_ID} + set b | b in builtins :: b.id
  }

  /** The destinations the validation looks at: the global layer, the extra ones and those the rules mention. */
  function Checked(rules: seq<Rule>, extra: seq<Option<string>>): set<Option<string>> {
    {None} + (set d | d in extra) + (set rule | rule in rules :: rule.Destination())
  }

  method ValidateConfiguredRules(rules: seq<Rule>, builtins: seq<Builtin>, extra: seq<Option<string>> := [])
    returns (issues: set<Issue>)
    ensures TooManyRules in issues <==> |rules| > MAX_CONFIGURED_RULES
    ensures DuplicateRule in issues <==> exists j :: 0 <= j < |rules| && RepeatsEarlier(rules, j)
    ensures UnknownBuiltin in issues <==>
            exists i :: 0 <= i < |rules| && rules[i].BuiltinOverride? && rules[i].builtinId !in KnownIds(builtins)
    ensures TooManyEnabledForDestination in issues <==> exists d :: Crowded(rules, builtins, d)
  {
    var duplicate := AnyDuplicate(rules);
    var unknown := AnyUnknown(rules, builtins);
    var crowded := AnyCrowded(rules, builtins, Checked(rules, extra));
    assert crowded <==> exists d :: Crowded(rules, builtins, d) by { FiniteCheckBoundsAll(rules, builtins, extra); }
    issues := Found(|rules| > MAX_CONFIGURED_RULES, duplicate, unknown, crowded);
  }

  function Found(tooMany: bool, duplicate: bool, unknown: bool, crowded: bool): (issues: set<Issue>)
    ensures TooManyRules in issues <==> tooMany
    ensures DuplicateRule in issues <==> duplicate
    ensures UnknownBuiltin in issues <==> unknown
    ensures TooManyEnabledForDestination in issues <==> crowded
  {
    (if tooMany then {TooManyRules} else {}) + (if duplicate then {DuplicateRule} else {})
    + (if unknown then {UnknownBuiltin} else {}) + (if crowded then {TooManyEnabledForDestination} else {})
  }

  method AnyDuplicate(rules: seq<Rule>) returns (duplicate: bool)
    ensures duplicate <==> exists j :: 0 <= j < |rules| && RepeatsEarlier(rules, j)
  {
    var seen: set<string> := {};
    duplicate := false;
    for k := 0 to |rules|
      invariant forall key :: key in seen <==> exists i :: 0 <= i < k && RuleKey(rules[i]) == key
      invariant duplicate <==> exists j :: 0 <= j < k && RepeatsEarlier(rules, j)
    {
      var key := RuleKey(rules[k]);
      assert key in seen <==> RepeatsEarlier(rules, k);
      duplicate := duplicate || key in seen;
      seen := seen + {key};
    }
  }

  method AnyUnknown(rules: seq<Rule>, builtins: seq<Builtin>) returns (unknown: bool)
    ensures unknown <==> exists i :: 0 <= i < |rules| && IsUnknown(rules[i], builtins)
  {
    unknown := false;
    for k := 0 to |rules|
      invariant unknown <==> exists i :: 0 <= i < k && IsUnknown(rules[i], builtins)
    {
      unknown := unknown || IsUnknown(rules[k], builtins);
    }
  }

  method AnyCrowded(rules: seq<Rule>, builtins: seq<Builtin>, destinations: set<Option<string>>) returns (crowded: bool)
    ensures crowded <==> exists d :: d in destinations && Crowded(rules, builtins, d)
  {
    var rest := destinations;
    crowded := false;
    while rest != {}
      invariant rest <= destinations
      invariant crowded <==> exists d :: d in destinations - rest && Crowded(rules, builtins, d)
    {
      var d :| d in rest;
      rest := rest - {d};
      crowded := crowded || Crowded(rules, builtins, d);
    }
  }

  lemma {:induction false} NothingForUnmentioned(rules: seq<Rule>, destination: Option<string>)
    requires forall rule :: rule in rules ==> rule.Destination() != destination
    ensures RulesForDestination(rules, destination) == []
  {
    if rules != [] {
      assert rules[0] in rules;
      NothingForUnmentioned(rules[1..], destination);
    }
  }

  lemma {:induction false} RebuildingIsIdentity(rules: seq<Rule>)
    requires DistinctIds(rules)
    ensures SetAll([], rules) == rules
  {
    if rules != [] {
      var front := rules[..|rules| - 1];
      RebuildingIsIdentity(front);
      assert Place(front, rules[|rules| - 1].Id()) == |front|;
      assert rules == front + [rules[|rules| - 1]];
    }
  }

  /** A destination no rule mentions inherits exactly the global layer. */
  lemma UnmentionedInheritsGlobal(rules: seq<Rule>, builtins: seq<Builtin>, destination: Option<string>)
    requires forall rule :: rule in rules ==> rule.Destination() != destination
    ensures EffectiveRules(rules, builtins, destination) == EffectiveRules(rules, builtins, None)
  {
    if destination.Some? {
      NothingForUnmentioned(rules, destination);
      EffectiveRulesResolve(rules, builtins, None, "");
      RebuildingIsIdentity(EffectiveRules(rules, builtins, None));
    }
  }

  /** Checking finitely many destinations bounds every one of them. */
  lemma FiniteCheckBoundsAll(rules: seq<Rule>, builtins: seq<Builtin>, extra: seq<Option<string>>)
    ensures (exists d :: Crowded(rules, builtins, d)) <==> exists d :: d in Checked(rules, extra) && Crowded(rules, builtins, d)
  {
    assert None in Checked(rules, extra);
    forall d | d !in Checked(rules, extra) ensures Crowded(rules, builtins, d) <==> Crowded(rules, builtins, None) {
      forall rule | rule in rules ensures rule.Destination() != d {}
      UnmentionedInheritsGlobal(rules, builtins, d);
    }
  }

  // ---- Editing ----------------------------------------------------------------------------------

  ghost predicate DistinctKeys(rules: seq<Rule>) {
    forall i, j :: 0 <= i < j < |rules| ==> RuleKey(rules[i]) != RuleKey(rules[j])
  }

  /** Replace every rule with this key in place, or append. */
  method UpsertRule(rules: seq<Rule>, next: Rule) returns (updated: seq<Rule>)
    ensures updated == Upsert(rules, next)
    ensures forall i :: 0 <= i < |rules| ==> updated[i] == if RuleKey(rules[i]) == RuleKey(next) then next else rules[i]
    ensures (exists i :: 0 <= i < |rules| && RuleKey(rules[i]) == RuleKey(next)) ==> |updated| == |rules|
    ensures (forall i :: 0 <= i < |rules| ==> RuleKey(rules[i]) != RuleKey(next)) ==> updated == rules + [next]
  {
    var replaced := false;
    updated := [];
    for i := 0 to |rules|
      invariant |updated| == i && forall j :: 0 <= j < i ==> updated[j] == if RuleKey(rules[j]) == RuleKey(next) then next else rules[j]
      invariant replaced <==> exists j :: 0 <= j < i && RuleKey(rules[j]) == RuleKey(next)
    {
      if RuleKey(rules[i]) != RuleKey(next) {
        updated := updated + [rules[i]];
      } else {
        replaced := true;
        updated := updated + [next];
      }
    }
    if !replaced { updated := updated + [next]; }
  }

  function Upsert(rules: seq<Rule>, next: Rule): seq<Rule> {
    var mapped := seq(|rules|, i requires 0 <= i < |rules| => if RuleKey(rules[i]) == RuleKey(next) then next else rules[i]);
    if exists i :: 0 <= i < |rules| && RuleKey(rules[i]) == RuleKey(next) then mapped else mapped + [next]
  }

  lemma UpsertKeepsKeysDistinct(rules: seq<Rule>, next: Rule)
    requires DistinctKeys(rules)
    ensures DistinctKeys(Upsert(rules, next))
  {
  }

  /** After saving, the saved rule is the only one of its key. */
  lemma UpsertedIsTheOnlyMatch(rules: seq<Rule>, next: Rule)
    ensures next in Upsert(rules, next)
    ensures forall other :: other in Upsert(rules, next) && RuleKey(other) == RuleKey(next) ==> other == next
  {
    var u := Upsert(rules, next);
    if k :| 0 <= k < |rules| && RuleKey(rules[k]) == RuleKey(next) { assert u[k] == next; } else { assert u[|rules|] == next; }
  }

  /** Saving a rule never makes a list with duplicates of one without, and the saved rule is the one in force where it applies. */
  lemma UpsertTakesEffect(rules: seq<Rule>, next: Rule, builtins: seq<Builtin>)
    ensures DistinctKeys(rules) ==> DistinctKeys(Upsert(rules, next))
    ensures Winner(EffectiveRules(Upsert(rules, next), builtins, next.Destination()), next.Id()) == Some(next)
  {
    if DistinctKeys(rules) { UpsertKeepsKeysDistinct(rules, next); }
    UpsertedIsTheOnlyMatch(rules, next);
    var u := Upsert(rules, next);
    EffectiveRulesResolve(u, builtins, next.Destination(), next.Id());
    OnlyMatchWins(u, next);
  }

  lemma OnlyMatchWins(rules: seq<Rule>, rule: Rule)
    requires rule in rules && forall other :: other in rules && RuleKey(other) == RuleKey(rule) ==> other == rule
    ensures Winner(RulesForDestination(rules, rule.Destination()), rule.Id()) == Some(rule)
  {
    var i :| 0 <= i < |rules| && rules[i] == rule;
    assert At(rules[i], rule.Destination(), rule.Id());
    LastExists(rules, rule.Destination(), rule.Id());
    var k: nat :| LastAt(rules, rule.Destination(), rule.Id(), k);
    WinnerIsLast(rules, rule.Destination(), rule.Id(), k);
    assert rules[k] in rules && RuleKey(rules[k]) == RuleKey(rule);
  }

  /** A place is out of reach of a save when neither the saved rule nor one it replaces is there. */
  ghost predicate OutOfReach(rules: seq<Rule>, next: Rule, destination: Option<string>, id: string) {
    && !At(next, destination, id)
    && (forall i :: 0 <= i < |rules| && RuleKey(rules[i]) == RuleKey(next) ==> !At(rules[i], destination, id))
  }

  lemma UpsertLeavesTheRest(rules: seq<Rule>, next: Rule, destination: Option<string>, id: string)
    requires OutOfReach(rules, next, destination, id)
    ensures Winner(RulesForDestination(Upsert(rules, next), destination), id) == Winner(RulesForDestination(rules, destination), id)
  {
    var u := Upsert(rules, next);
    UpsertedPlaces(rules, next, destination, id);
    LastExists(rules, destination, id);
    if k: nat :| LastAt(rules, destination, id, k) {
      assert LastAt(u, destination, id, k) && u[k] == rules[k];
      WinnerIsLast(rules, destination, id, k);
      WinnerIsLast(u, destination, id, k);
    } else {
      assert NoneAt(u, destination, id);
      NoneWins(rules, destination, id);
      NoneWins(u, destination, id);
    }
  }

  lemma UpsertedPlaces(rules: seq<Rule>, next: Rule, destination: Option<string>, id: string)
    requires OutOfReach(rules, next, destination, id)
    ensures |rules| <= |Upsert(rules, next)|
    ensures forall i :: 0 <= i < |rules| && At(rules[i], destination, id) ==> Upsert(rules, next)[i] == rules[i]
    ensures forall i :: 0 <= i < |Upsert(rules, next)| && At(Upsert(rules, next)[i], destination, id) ==>
      i < |rules| && At(rules[i], destination, id)
  {
  }

  /** Saving a rule changes nothing about what is in force where it cannot reach. */
  lemma UpsertReachesNothingElse(rules: seq<Rule>, next: Rule, builtins: seq<Builtin>, destination: Option<string>, id: string)
    requires OutOfReach(rules, next, destination, id) && OutOfReach(rules, next, None, id)
    ensures Winner(EffectiveRules(Upsert(rules, next), builtins, destination), id)
         == Winner(EffectiveRules(rules, builtins, destination), id)
  {
    EffectiveRulesResolve(rules, builtins, destination, id);
    EffectiveRulesResolve(Upsert(rules, next), builtins, destination, id);
    UpsertLeavesTheRest(rules, next, destination, id);
    UpsertLeavesTheRest(rules, next, None, id);
  }
}
