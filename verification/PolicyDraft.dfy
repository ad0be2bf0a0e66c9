/** The temporary-unavailability rule form: its parser, its printer, and when they are inverse. */
module PolicyDraft {
  import opened Lists
  import opened PolicyText

  const BUILTIN_GOAT_ID := "builtin.goat.credits_rejection"
  const MAX_MATCH_ALTERNATIVES := 32
  const MAX_MATCH_STRING_BYTES := 256
  const MIN_BACKOFF_SECONDS := 1
  const MAX_BACKOFF_SECONDS := 86_400
  const MIN_STATUS_CODE := 400
  const MAX_STATUS_CODE := 599

  datatype Scope = Credential | CredentialModel

  datatype Match = Match(
    statusCodes: Option<seq<nat>>,
    errorCodes: Option<seq<string>>,
    errorTypes: Option<seq<string>>,
    messageContains: Option<seq<string>>)

  datatype CustomRule = CustomRule(
    id: string, destinationId: Option<string>, enabled: bool, scope: Scope,
    matcher: Match, initialSeconds: nat, maxSeconds: nat)

  /** The form's fields; `scope` is None for anything that is not one of the two scopes. */
  datatype Draft = Draft(
    id: string, enabled: bool, scope: Option<Scope>,
    statusCodes: string, errorCodes: string, errorTypes: string, messageContains: string,
    initialSeconds: string, maxSeconds: string)

  datatype Issue =
    | MissingId | ReservedBuiltinId | InvalidScope | EmptyMatch
    | EmptyStatusCodes | InvalidStatusCode | EmptyErrorCodes | EmptyErrorTypes | EmptyMessageContains
    | TooManyAlternatives | MatchStringTooLong
    | InvalidBackoffInitial | InvalidBackoffMax | BackoffMaxBelowInitial

  datatype Parsed = Accepted(rule: CustomRule) | Rejected(issues: seq<Issue>)

  function KnownBuiltinIds(builtins: seq<string>): set<string> {
    {BUILTIN_GOAT_ID} + set id | id in builtins
  }

  /** An empty field is omitted; anything else is a list, possibly an empty one. */
  function ListField(raw: string): Option<seq<string>> {
    if raw == "" then None else Some(Collect(Split(raw)))
  }

  /** Status codes in order of first occurrence, or None when some value is not one. */
  function Codes(values: seq<string>): Option<seq<nat>> {
    if values == [] then Some([])
    else
      var last := values[|values| - 1];
      var codes := Codes(values[..|values| - 1]);
      if codes.None? || last == "" || !AllDigits(last) || !(MIN_STATUS_CODE <= Value(last) <= MAX_STATUS_CODE) then None
      else if Value(last) in codes.value then codes
      else Some(codes.value + [Value(last)])
  }

  function Seconds(raw: string): Option<nat> {
    var trimmed := Trim(raw);
    if trimmed != "" && AllDigits(trimmed) && MIN_BACKOFF_SECONDS <= Value(trimmed) <= MAX_BACKOFF_SECONDS
    then Some(Value(trimmed)) else None
  }

  // ---- What each issue means -------------------------------------------------------

  predicate TooLong(values: seq<string>) {
    exists i :: 0 <= i < |values| && Utf8Length(values[i]) > MAX_MATCH_STRING_BYTES
  }

  predicate StringsRaise(i: Issue, values: seq<string>) {
    || (i == TooManyAlternatives && |values| > MAX_MATCH_ALTERNATIVES)
    || (i == MatchStringTooLong && TooLong(values))
  }

  predicate ListRaises(i: Issue, field: Option<seq<string>>, empty: Issue) {
    field.Some? && if field.value == [] then i == empty else StringsRaise(i, field.value)
  }

  predicate StatusRaises(i: Issue, field: Option<seq<string>>) {
    && field.Some?
    && if field.value == [] then i == EmptyStatusCodes
       else if Codes(field.value).None? then i == InvalidStatusCode
       else StringsRaise(i, field.value)
  }

  predicate BackoffRaises(i: Issue, initial: Option<nat>, max: Option<nat>) {
    || (i == InvalidBackoffInitial && initial.None?)
    || (i == InvalidBackoffMax && max.None?)
    || (i == BackoffMaxBelowInitial && initial.Some? && max.Some? && max.value < initial.value)
  }

  predicate MatchRaises(i: Issue, d: Draft) {
    || StatusRaises(i, ListField(d.statusCodes))
    || ListRaises(i, ListField(d.errorCodes), EmptyErrorCodes)
    || ListRaises(i, ListField(d.errorTypes), EmptyErrorTypes)
    || ListRaises(i, ListField(d.messageContains), EmptyMessageContains)
    || (i == EmptyMatch && d.statusCodes == d.errorCodes == d.errorTypes == d.messageContains == "")
  }

  predicate Raised(i: Issue, d: Draft, known: set<string>) {
    || (i == MissingId && Trim(d.id) == "")
    || (i == ReservedBuiltinId && Trim(d.id) != "" && Trim(d.id) in known)
    || (i == InvalidScope && d.scope.None?)
    || MatchRaises(i, d)
    || BackoffRaises(i, Seconds(d.initialSeconds), Seconds(d.maxSeconds))
  }

  ghost predicate Acceptable(d: Draft, known: set<string>) {
    forall i: Issue :: !Raised(i, d, known)
  }

  function MatchOf(d: Draft): Match {
    var status := ListField(d.statusCodes);
    Match(if status.None? then None else Codes(status.value),
          ListField(d.errorCodes), ListField(d.errorTypes), ListField(d.messageContains))
  }

  ghost function RuleOf(d: Draft, destinationId: Option<string>, known: set<string>): CustomRule
    requires Acceptable(d, known)
  {
    assert !Raised(InvalidScope, d, known) && !Raised(InvalidBackoffInitial, d, known) && !Raised(InvalidBackoffMax, d, known);
    CustomRule(Trim(d.id), destinationId, d.enabled, d.scope.value, MatchOf(d),
      Seconds(d.initialSeconds).value, Seconds(d.maxSeconds).value)
  }

  // ---- The parser --------------------------------------------------------------------

  method OptionalList(raw: string) returns (field: Option<seq<string>>)
    ensures field == ListField(raw)
  {
    if raw == "" { return None; }
    var values := ParseDelimitedList(raw);
    return Some(values);
  }

  method ParseStatusCodes(values: seq<string>) returns (r: Option<seq<nat>>)
    ensures r == Codes(values)
  {
    var codes: seq<nat> := [];
    var seen: set<nat> := {};
    for i := 0 to |values|
      invariant Codes(values[..i]) == Some(codes) && forall c :: c in seen <==> c in codes
    {
      assert values[..i + 1][..i] == values[..i];
      var value := values[i];
      if value == "" || !AllDigits(value) || !(MIN_STATUS_CODE <= Value(value) <= MAX_STATUS_CODE) {
        NoCodesAfter(values, i + 1);
        return None;
      }
      if Value(value) !in seen {
        seen := seen + {Value(value)};
        codes := codes + [Value(value)];
      }
    }
    assert values[..|values|] == values;
    return Some(codes);
  }

  lemma {:induction false} NoCodesAfter(values: seq<string>, i: nat)
    requires i <= |values| && Codes(values[..i]).None?
    ensures Codes(values).None?
    decreases |values|
  {
    if i == |values| {
      assert values[..i] == values;
    } else {
      assert values[..|values| - 1][..i] == values[..i];
      NoCodesAfter(values[..|values| - 1], i);
    }
  }

  method MatchStringIssues(values: seq<string>) returns (issues: seq<Issue>)
    ensures forall i :: i in issues <==> StringsRaise(i, values)
  {
    issues := [];
    if |values| > MAX_MATCH_ALTERNATIVES { issues := issues + [TooManyAlternatives]; }
    if TooLong(values) { issues := issues + [MatchStringTooLong]; }
  }

  method ListIssues(field: Option<seq<string>>, empty: Issue) returns (issues: seq<Issue>)
    ensures forall i :: i in issues <==> ListRaises(i, field, empty)
  {
    if field.None? { return []; }
    if field.value == [] { return [empty]; }
    issues := MatchStringIssues(field.value);
  }

  method StatusIssues(field: Option<seq<string>>) returns (codes: Option<seq<nat>>, issues: seq<Issue>)
    ensures forall i :: i in issues <==> StatusRaises(i, field)
    ensures field.None? ==> codes.None?
    ensures field.Some? && field.value != [] ==> codes == Codes(field.value)
  {
    if field.None? { return None, []; }
    if field.value == [] { return None, [EmptyStatusCodes]; }
    codes := ParseStatusCodes(field.value);
    if codes.None? { return None, [InvalidStatusCode]; }
    issues := MatchStringIssues(field.value);
  }

  method BackoffIssues(initial: Option<nat>, max: Option<nat>) returns (issues: seq<Issue>)
    ensures forall i :: i in issues <==> BackoffRaises(i, initial, max)
  {
    issues := [];
    if initial.None? { issues := issues + [InvalidBackoffInitial]; }
    if max.None? { issues := issues + [InvalidBackoffMax]; }
    if initial.Some? && max.Some? && max.value < initial.value { issues := issues + [BackoffMaxBelowInitial]; }
  }

  /** `[...new Set(issues)]` */
  method WithoutRepeats(issues: seq<Issue>) returns (r: seq<Issue>)
    ensures Distinct(r) && forall i :: i in r <==> i in issues
  {
    r := [];
    for k := 0 to |issues|
      invariant Distinct(r) && forall i :: i in r <==> i in issues[..k]
    {
      assert issues[..k + 1] == issues[..k] + [issues[k]];
      if issues[k] !in r { r := r + [issues[k]]; }
    }
    assert issues[..|issues|] == issues;
  }

  /** The part of the parser that reads the four match fields. */
  method ParseMatch(d: Draft) returns (m: Match, issues: seq<Issue>)
    ensures forall i :: i in issues <==> MatchRaises(i, d)
    ensures issues == [] ==> m == MatchOf(d)
  {
    var status := OptionalList(d.statusCodes);
    var errorCodes := OptionalList(d.errorCodes);
    var errorTypes := OptionalList(d.errorTypes);
    var messages := OptionalList(d.messageContains);
    var codes, more := StatusIssues(status);
    issues := more;
    more := ListIssues(errorCodes, EmptyErrorCodes);
    issues := issues + more;
    more := ListIssues(errorTypes, EmptyErrorTypes);
    issues := issues + more;
    more := ListIssues(messages, EmptyMessageContains);
    issues := issues + more;
    if status.None? && errorCodes.None? && errorTypes.None? && messages.None? { issues := issues + [EmptyMatch]; }
    m := Match(codes, errorCodes, errorTypes, messages);
    if issues == [] { assert !MatchRaises(EmptyStatusCodes, d); }
  }

  method ParseCustomRuleDraft(d: Draft, destinationId: Option<string>, builtins: seq<string>) returns (r: Parsed)
    ensures r.Accepted? <==> Acceptable(d, KnownBuiltinIds(builtins))
    ensures r.Accepted? ==> r.rule == RuleOf(d, destinationId, KnownBuiltinIds(builtins))
    ensures r.Rejected? ==> Distinct(r.issues) && forall i :: i in r.issues <==> Raised(i, d, KnownBuiltinIds(builtins))
  {
    var known := KnownBuiltinIds(builtins);
    var id := Trim(d.id);
    var issues: seq<Issue> := [];
    if id == "" { issues := [MissingId]; } else if id in known { issues := [ReservedBuiltinId]; }
    if d.scope.None? { issues := issues + [InvalidScope]; }
    var m, more := ParseMatch(d);
    issues := issues + more;
    var initial, max := Seconds(d.initialSeconds), Seconds(d.maxSeconds);
    more := BackoffIssues(initial, max);
    issues := issues + more;
    assert forall i :: i in issues <==> Raised(i, d, known);
    if issues != [] {
      assert Raised(issues[0], d, known);
      issues := WithoutRepeats(issues);
      return Rejected(issues);
    }
    assert !Raised(InvalidScope, d, known);
    assert !Raised(InvalidBackoffInitial, d, known) && !Raised(InvalidBackoffMax, d, known);
    return Accepted(CustomRule(id, destinationId, d.enabled, d.scope.value, m, initial.value, max.value));
  }

  // ---- The printer -------------------------------------------------------------------

  function PrintList(items: Option<seq<string>>): string {
    if items.None? then "" else Join(items.value, "\n")
  }

  function CustomRuleDraftFrom(rule: CustomRule): Draft {
    Draft(rule.id, rule.enabled, Some(rule.scope),
      if rule.matcher.statusCodes.None? then "" else Join(Decimals(rule.matcher.statusCodes.value), ", "),
      PrintList(rule.matcher.errorCodes), PrintList(rule.matcher.errorTypes), PrintList(rule.matcher.messageContains),
      Decimal(rule.initialSeconds), Decimal(rule.maxSeconds))
  }

  function Decimals(codes: seq<nat>): (r: seq<string>)
    ensures |r| == |codes| && forall i :: 0 <= i < |r| ==> r[i] == Decimal(codes[i])
  {
    seq(|codes|, i requires 0 <= i < |codes| => Decimal(codes[i]))
  }

  // ---- Round trip ----------------------------------------------------------------------

  ghost predicate CanonicalList(items: Option<seq<string>>) {
    items.Some? ==>
      && 0 < |items.value| <= MAX_MATCH_ALTERNATIVES && Distinct(items.value) && !TooLong(items.value)
      && forall i :: 0 <= i < |items.value| ==> IsItem(items.value[i])
  }

  ghost predicate CanonicalCodes(codes: Option<seq<nat>>) {
    codes.Some? ==>
      && 0 < |codes.value| <= MAX_MATCH_ALTERNATIVES && Distinct(codes.value)
      && forall i :: 0 <= i < |codes.value| ==> MIN_STATUS_CODE <= codes.value[i] <= MAX_STATUS_CODE
  }

  /** The rules the form can express. */
  ghost predicate Canonical(r: CustomRule, known: set<string>) {
    && r.id != "" && Tight(r.id) && r.id !in known
    && CanonicalCodes(r.matcher.statusCodes) && CanonicalList(r.matcher.errorCodes)
    && CanonicalList(r.matcher.errorTypes) && CanonicalList(r.matcher.messageContains)
    && r.matcher != Match(None, None, None, None)
    && MIN_BACKOFF_SECONDS <= r.initialSeconds <= r.maxSeconds <= MAX_BACKOFF_SECONDS
  }

  lemma ListFieldIsCanonical(raw: string, empty: Issue)
    requires !ListRaises(empty, ListField(raw), empty) && !ListRaises(TooManyAlternatives, ListField(raw), empty)
    requires !ListRaises(MatchStringTooLong, ListField(raw), empty)
    ensures CanonicalList(ListField(raw))
  {
    SplitIsSeparatorFree(raw);
    CollectKeepsItems(Split(raw));
  }

  lemma {:induction false} CodesAreCanonical(values: seq<string>)
    requires Codes(values).Some?
    ensures var c := Codes(values).value;
      Distinct(c) && |c| <= |values| && (values != [] ==> c != []) && forall i :: 0 <= i < |c| ==> MIN_STATUS_CODE <= c[i] <= MAX_STATUS_CODE
  {
    if values != [] { CodesAreCanonical(values[..|values| - 1]); }
  }

  lemma StatusFieldIsCanonical(field: Option<seq<string>>)
    requires forall i: Issue :: !StatusRaises(i, field)
    ensures field.Some? ==> Codes(field.value).Some? && CanonicalCodes(Codes(field.value))
  {
    if field.Some? {
      assert !StatusRaises(EmptyStatusCodes, field) && !StatusRaises(InvalidStatusCode, field);
      assert !StatusRaises(TooManyAlternatives, field);
      CodesAreCanonical(field.value);
    }
  }

  lemma AcceptedMatchIsCanonical(d: Draft, destinationId: Option<string>, known: set<string>)
    requires Acceptable(d, known)
    ensures var m := RuleOf(d, destinationId, known).matcher;
      CanonicalCodes(m.statusCodes) && CanonicalList(m.errorCodes) && CanonicalList(m.errorTypes) && CanonicalList(m.messageContains)
  {
    forall i: Issue ensures !StatusRaises(i, ListField(d.statusCodes)) && !ListRaises(i, ListField(d.errorCodes), EmptyErrorCodes)
      && !ListRaises(i, ListField(d.errorTypes), EmptyErrorTypes) && !ListRaises(i, ListField(d.messageContains), EmptyMessageContains)
    {
      assert !Raised(i, d, known);
    }
    StatusFieldIsCanonical(ListField(d.statusCodes));
    ListFieldIsCanonical(d.errorCodes, EmptyErrorCodes);
    ListFieldIsCanonical(d.errorTypes, EmptyErrorTypes);
    ListFieldIsCanonical(d.messageContains, EmptyMessageContains);
  }

  /** Whatever the parser accepts is canonical. */
  lemma AcceptedIsCanonical(d: Draft, destinationId: Option<string>, known: set<string>)
    requires Acceptable(d, known)
    ensures Canonical(RuleOf(d, destinationId, known), known)
  {
    AcceptedMatchIsCanonical(d, destinationId, known);
    TrimIsTight(d.id);
    assert !Raised(MissingId, d, known) && !Raised(ReservedBuiltinId, d, known) && !Raised(EmptyMatch, d, known);
    assert !Raised(EmptyStatusCodes, d, known) && !Raised(InvalidStatusCode, d, known);
    assert !Raised(InvalidBackoffInitial, d, known) && !Raised(InvalidBackoffMax, d, known) && !Raised(BackoffMaxBelowInitial, d, known);
  }

  lemma PrintedListParses(items: Option<seq<string>>)
    requires CanonicalList(items)
    ensures ListField(PrintList(items)) == items
    ensures forall i, empty :: !ListRaises(i, items, empty)
  {
    if items.Some? {
      ListRoundTrip(items.value, '\n', "");
      assert ['\n'] + "" == "\n";
    }
  }

  lemma OneMoreCode(values: seq<string>, codes: seq<nat>, n: nat)
    requires values != [] && Codes(values[..|values| - 1]) == Some(codes) && values[|values| - 1] == Decimal(n)
    requires MIN_STATUS_CODE <= n <= MAX_STATUS_CODE && n !in codes
    ensures Codes(values) == Some(codes + [n])
  {
    DecimalRoundTrip(n);
  }

  lemma {:induction false} CodesOfDecimals(values: seq<string>, codes: seq<nat>)
    requires Distinct(codes) && forall i :: 0 <= i < |codes| ==> MIN_STATUS_CODE <= codes[i] <= MAX_STATUS_CODE
    requires |values| == |codes| && forall i :: 0 <= i < |codes| ==> values[i] == Decimal(codes[i])
    ensures Codes(values) == Some(codes)
  {
    if codes != [] {
      var n := |codes| - 1;
      var front := codes[..n];
      CodesOfDecimals(values[..n], front);
      FrontAndLast(codes);
      OneMoreCode(values, front, codes[n]);
    }
  }

  lemma PrintedCodesParse(codes: seq<nat>)
    requires CanonicalCodes(Some(codes))
    ensures ListField(Join(Decimals(codes), ", ")) == Some(Decimals(codes))
    ensures Codes(Decimals(codes)) == Some(codes) && !TooLong(Decimals(codes))
  {
    forall i | 0 <= i < |codes| ensures IsItem(Decimals(codes)[i]) && Utf8Length(Decimals(codes)[i]) <= 3 {
      DecimalsAreItems(codes[i]);
    }
    forall i, j | 0 <= i < j < |codes| ensures Decimals(codes)[i] != Decimals(codes)[j] {
      DecimalRoundTrip(codes[i]);
      DecimalRoundTrip(codes[j]);
    }
    ListRoundTrip(Decimals(codes), ',', " ");
    assert [','] + " " == ", ";
    CodesOfDecimals(Decimals(codes), codes);
  }

  lemma PrintedSecondsParse(n: nat)
    requires MIN_BACKOFF_SECONDS <= n <= MAX_BACKOFF_SECONDS
    ensures Seconds(Decimal(n)) == Some(n)
  {
    DecimalsAreItems(n);
    TrimIsTight(Decimal(n));
    DecimalRoundTrip(n);
  }

  lemma PrintedStatusParses(codes: Option<seq<nat>>, raw: string)
    requires CanonicalCodes(codes)
    requires raw == if codes.None? then "" else Join(Decimals(codes.value), ", ")
    ensures var field := ListField(raw);
      && (if field.None? then None else Codes(field.value)) == codes
      && forall i :: !StatusRaises(i, field)
  {
    if codes.Some? { PrintedCodesParse(codes.value); }
  }

  lemma PrintedMatchParses(r: CustomRule, known: set<string>)
    requires Canonical(r, known)
    ensures MatchOf(CustomRuleDraftFrom(r)) == r.matcher
    ensures forall i :: !MatchRaises(i, CustomRuleDraftFrom(r))
  {
    var d := CustomRuleDraftFrom(r);
    PrintedStatusParses(r.matcher.statusCodes, d.statusCodes);
    PrintedListParses(r.matcher.errorCodes);
    PrintedListParses(r.matcher.errorTypes);
    PrintedListParses(r.matcher.messageContains);
  }

  /** A canonical rule survives printing and parsing unchanged. */
  lemma CanonicalRoundTrips(r: CustomRule, known: set<string>)
    requires Canonical(r, known)
    ensures Acceptable(CustomRuleDraftFrom(r), known)
    ensures RuleOf(CustomRuleDraftFrom(r), r.destinationId, known) == r
  {
    var d := CustomRuleDraftFrom(r);
    TrimIsTight(r.id);
    PrintedMatchParses(r, known);
    PrintedSecondsParse(r.initialSeconds);
    PrintedSecondsParse(r.maxSeconds);
    forall i: Issue ensures !Raised(i, d, known) {
      assert !MatchRaises(i, d) && !BackoffRaises(i, Seconds(d.initialSeconds), Seconds(d.maxSeconds));
    }
  }

  /** Printing then parsing gives a rule back exactly when the form can express it. */
  lemma RoundTripsExactlyWhenCanonical(r: CustomRule, known: set<string>)
    ensures Canonical(r, known) <==>
      Acceptable(CustomRuleDraftFrom(r), known) && RuleOf(CustomRuleDraftFrom(r), r.destinationId, known) == r
  {
    if Canonical(r, known) { CanonicalRoundTrips(r, known); }
    if Acceptable(CustomRuleDraftFrom(r), known) { AcceptedIsCanonical(CustomRuleDraftFrom(r), r.destinationId, known); }
  }

  /** What the parser accepts, printed and parsed again, is the same rule. */
  lemma AcceptedRoundTrips(d: Draft, destinationId: Option<string>, known: set<string>)
    requires Acceptable(d, known)
    ensures var r := RuleOf(d, destinationId, known);
      Acceptable(CustomRuleDraftFrom(r), known) && RuleOf(CustomRuleDraftFrom(r), destinationId, known) == r
  {
    AcceptedIsCanonical(d, destinationId, known);
    CanonicalRoundTrips(RuleOf(d, destinationId, known), known);
  }
}
