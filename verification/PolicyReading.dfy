/**
 * What the rule form reads, character by character: trimming, lists, numbers,
 * status codes, byte lengths, and which draft raises which issue.
 */
module PolicyReading {
  import opened Lists
  import opened PolicyText
  import opened PolicyDraft

  // ---- Trimming ------------------------------------------------------------------

  ghost predicate Spaces(s: string) {
    forall i :: 0 <= i < |s| ==> IsSpace(s[i])
  }

  lemma {:induction false} TrimEndDropsPadding(s: string, pad: string)
    requires Spaces(pad) && Tight(s)
    ensures TrimEnd(s + pad) == s
  {
    if pad == "" {
      assert s + pad == s;
    } else {
      assert (s + pad)[..|s + pad| - 1] == s + pad[..|pad| - 1];
      TrimEndDropsPadding(s, pad[..|pad| - 1]);
    }
  }

  lemma {:induction false} TrimStartDropsPadding(pad: string, s: string)
    requires Spaces(pad) && (s != "" ==> !IsSpace(s[0]))
    ensures TrimStart(pad + s) == s
  {
    if pad == "" {
      assert pad + s == s;
    } else {
      assert (pad + s)[1..] == pad[1..] + s;
      TrimStartDropsPadding(pad[1..], s);
    }
  }

  /** Trimming takes off exactly the white space at both ends; nothing is left of white space alone. */
  lemma TrimExactly(before: string, s: string, after: string)
    requires Spaces(before) && Spaces(after) && Tight(s)
    ensures Trim(before + s + after) == s
  {
    if s == "" {
      assert before + s + after == (before + after) + "";
      TrimStartDropsPadding(before + after, "");
    } else {
      assert before + s + after == before + (s + after);
      TrimStartDropsPadding(before, s + after);
      TrimEndDropsPadding(s, after);
    }
  }

  // ---- Lists ----------------------------------------------------------------------

  function Trimmed(parts: seq<string>): (items: seq<string>)
    ensures |items| == |parts| && forall i :: 0 <= i < |items| ==> items[i] == Trim(parts[i])
  {
    seq(|parts|, i requires 0 <= i < |parts| => Trim(parts[i]))
  }

  /** A parsed list has the trimmed parts in order of first occurrence, and no empty one. */
  lemma {:induction false} CollectExactly(parts: seq<string>)
    ensures Collect(parts) == Without(Unique(Trimmed(parts)), "")
  {
    if parts != [] {
      var front, item := parts[..|parts| - 1], Trim(parts[|parts| - 1]);
      CollectExactly(front);
      assert Trimmed(parts) == Trimmed(front) + [item];
      OneMoreItem(Trimmed(front), item);
    }
  }

  lemma OneMoreItem(items: seq<string>, item: string)
    ensures var kept := Without(Unique(items), "");
      Without(Unique(items + [item]), "") == if item == "" || item in kept then kept else kept + [item]
  {
    assert (items + [item])[..|items|] == items;
    WithoutMembers(Unique(items), "");
    WithoutConcat(Unique(items), [item], "");
    assert [item][1..] == [];
  }

  // ---- Numbers ----------------------------------------------------------------------

  /** Leading zeros do not count. */
  lemma {:induction false} LeadingZeros(zeros: string, s: string)
    requires AllDigits(s) && forall i :: 0 <= i < |zeros| ==> zeros[i] == '0'
    ensures AllDigits(zeros + s) && Value(zeros + s) == Value(s)
  {
    if s != "" {
      assert (zeros + s)[..|zeros + s| - 1] == zeros + s[..|s| - 1];
      LeadingZeros(zeros, s[..|s| - 1]);
    } else if zeros != "" {
      assert zeros + s == zeros && zeros[..|zeros| - 1] + "" == zeros[..|zeros| - 1];
      LeadingZeros(zeros[..|zeros| - 1], "");
    }
  }

  /** Seconds are read from digits with any white space around them and any zeros before them, from one second to a day. */
  lemma SecondsExactly(before: string, zeros: string, n: nat, after: string)
    requires Spaces(before) && Spaces(after) && forall i :: 0 <= i < |zeros| ==> zeros[i] == '0'
    ensures Seconds(before + (zeros + Decimal(n)) + after) == if 1 <= n <= 86_400 then Some(n) else None
  {
    var digits := zeros + Decimal(n);
    LeadingZeros(zeros, Decimal(n));
    DecimalRoundTrip(n);
    DigitsArePlain(digits[0]);
    DigitsArePlain(digits[|digits| - 1]);
    TrimExactly(before, digits, after);
  }

  /** Nothing else is read as seconds. */
  lemma SecondsOnlyFromDigits(raw: string)
    ensures Seconds(raw).Some? ==> Trim(raw) != "" && AllDigits(Trim(raw)) && Seconds(raw).value == Value(Trim(raw))
  {
  }

  ghost predicate IsCode(value: string) {
    value != "" && AllDigits(value) && 400 <= Value(value) <= 599
  }

  ghost function Values(values: seq<string>): (codes: seq<nat>)
    requires forall i :: 0 <= i < |values| ==> IsCode(values[i])
    ensures |codes| == |values| && forall i :: 0 <= i < |codes| ==> IsCode(values[i]) && codes[i] == Value(values[i])
  {
    seq(|values|, i requires 0 <= i < |values| && IsCode(values[i]) => Value(values[i]))
  }

  lemma {:induction false} CodesNeedEvery(values: seq<string>)
    ensures Codes(values).Some? <==> forall i :: 0 <= i < |values| ==> IsCode(values[i])
  {
    if values != [] {
      CodesNeedEvery(values[..|values| - 1]);
      assert forall i :: 0 <= i < |values| - 1 ==> values[..|values| - 1][i] == values[i];
    }
  }

  /** Status codes: every value a number from 400 to 599, each number once, in order of first occurrence. */
  lemma {:induction false} CodesExactly(values: seq<string>)
    requires forall i :: 0 <= i < |values| ==> IsCode(values[i])
    ensures Codes(values) == Some(Unique(Values(values)))
  {
    if values != [] {
      var front := values[..|values| - 1];
      CodesExactly(front);
      assert IsCode(values[|values| - 1]);
      assert Values(values)[..|values| - 1] == Values(front);
    }
  }

  // ---- Byte length --------------------------------------------------------------------

  /** The encoding of one code point (section 3 of RFC 3629). */
  function Encoded(c: char): (bytes: seq<int>)
    ensures bytes != [] && forall i :: 0 <= i < |bytes| ==> 0 <= bytes[i] < 256
  {
    var u := c as int;
    if u < 0x80 then [u]
    else if u < 0x800 then [0xC0 + u / 64, Tail(u)]
    else if u < 0x10000 then [0xE0 + u / 64 / 64, Tail(u / 64), Tail(u)]
    else [0xF0 + u / 64 / 64 / 64, Tail(u / 64 / 64), Tail(u / 64), Tail(u)]
  }

  /** A continuation byte with the lowest six bits. */
  function Tail(u: nat): (byte: nat)
    ensures 0x80 <= byte < 0xC0
  {
    0x80 + u % 64
  }

  function Utf8(s: string): seq<int> {
    if s == "" then [] else Utf8(s[..|s| - 1]) + Encoded(s[|s| - 1])
  }

  /** The code point back from the bytes after the first, given what the first one holds. */
  function Decoded(high: int, tail: seq<int>): int {
    if tail == [] then high else Decoded(high, tail[..|tail| - 1]) * 64 + (tail[|tail| - 1] - 0x80)
  }

  lemma OneTail(high: int, a: int)
    ensures Decoded(high, [a]) == high * 64 + (a - 0x80)
  {
    assert [a][..0] == [];
  }

  lemma MoreTails(high: int, tail: seq<int>, a: int)
    ensures Decoded(high, tail + [a]) == Decoded(high, tail) * 64 + (a - 0x80)
  {
    assert (tail + [a])[..|tail|] == tail;
  }

  /** The first byte tells how many there are, and the bytes give the code point back. */
  lemma EncodedDecodes(c: char)
    ensures var bytes, n := Encoded(c), |Encoded(c)|;
      && 1 <= n <= 4
      && (n == 1 <==> bytes[0] < 0x80) && (n <= 2 <==> bytes[0] < 0xE0) && (n <= 3 <==> bytes[0] < 0xF0)
      && c as int == Decoded(bytes[0] - (if n == 1 then 0 else if n == 2 then 0xC0 else if n == 3 then 0xE0 else 0xF0), bytes[1..])
  {
    var u, bytes := c as int, Encoded(c);
    if |bytes| == 2 {
      OneTail(u / 64, Tail(u));
      assert bytes[1..] == [Tail(u)];
    } else if |bytes| == 3 {
      OneTail(u / 64 / 64, Tail(u / 64));
      MoreTails(u / 64 / 64, [Tail(u / 64)], Tail(u));
      assert bytes[1..] == [Tail(u / 64)] + [Tail(u)];
    } else if |bytes| == 4 {
      OneTail(u / 64 / 64 / 64, Tail(u / 64 / 64));
      MoreTails(u / 64 / 64 / 64, [Tail(u / 64 / 64)], Tail(u / 64));
      MoreTails(u / 64 / 64 / 64, [Tail(u / 64 / 64)] + [Tail(u / 64)], Tail(u));
      assert bytes[1..] == [Tail(u / 64 / 64)] + [Tail(u / 64)] + [Tail(u)];
    }
  }

  /** The limit on a matched string counts the bytes of its encoding. */
  lemma {:induction false} Utf8LengthIsBytes(s: string)
    ensures Utf8Length(s) == |Utf8(s)|
  {
    if s != "" { Utf8LengthIsBytes(s[..|s| - 1]); }
  }

  // ---- Drafts -----------------------------------------------------------------------

  ghost predicate AllCodes(items: seq<string>) {
    forall i :: 0 <= i < |items| ==> IsCode(items[i])
  }

  ghost predicate Oversized(items: seq<string>) {
    exists k :: 0 <= k < |items| && |Utf8(items[k])| > 256
  }

  /** Which lists raise which issue; a list that is None was left empty. */
  ghost predicate ListDeserves(i: Issue, status: Option<seq<string>>, codes: Option<seq<string>>,
                               types: Option<seq<string>>, messages: Option<seq<string>>)
  {
    match i
    case EmptyMatch => status.None? && codes.None? && types.None? && messages.None?
    case EmptyStatusCodes => status == Some([])
    case InvalidStatusCode => status.Some? && !AllCodes(status.value)
    case EmptyErrorCodes => codes == Some([])
    case EmptyErrorTypes => types == Some([])
    case EmptyMessageContains => messages == Some([])
    case TooManyAlternatives =>
      || (status.Some? && AllCodes(status.value) && |status.value| > 32)
      || (codes.Some? && |codes.value| > 32) || (types.Some? && |types.value| > 32) || (messages.Some? && |messages.value| > 32)
    case MatchStringTooLong =>
      || (status.Some? && AllCodes(status.value) && Oversized(status.value))
      || (codes.Some? && Oversized(codes.value)) || (types.Some? && Oversized(types.value))
      || (messages.Some? && Oversized(messages.value))
    case _ => false
  }

  /** Which of the other fields, as they are read, raise which issue. */
  ghost predicate FieldDeserves(i: Issue, id: string, known: set<string>, scope: Option<PolicyDraft.Scope>,
                                initial: Option<nat>, max: Option<nat>)
  {
    match i
    case MissingId => id == ""
    case ReservedBuiltinId => id != "" && id in known
    case InvalidScope => scope.None?
    case InvalidBackoffInitial => initial.None?
    case InvalidBackoffMax => max.None?
    case BackoffMaxBelowInitial => initial.Some? && max.Some? && max.value < initial.value
    case _ => false
  }

  lemma TooLongExactly(items: seq<string>)
    ensures TooLong(items) <==> Oversized(items)
  {
    forall k | 0 <= k < |items| ensures Utf8Length(items[k]) == |Utf8(items[k])| { Utf8LengthIsBytes(items[k]); }
  }

  lemma ListRaisesExactly(i: Issue, field: Option<seq<string>>, empty: Issue)
    ensures ListRaises(i, field, empty) <==>
      field.Some? &&
      ( || (i == empty && field.value == [])
        || (i == TooManyAlternatives && |field.value| > 32)
        || (i == MatchStringTooLong && Oversized(field.value)))
  {
    if field.Some? { TooLongExactly(field.value); }
  }

  lemma StatusRaisesExactly(i: Issue, field: Option<seq<string>>)
    ensures StatusRaises(i, field) <==>
      field.Some? &&
      ( || (i == EmptyStatusCodes && field.value == [])
        || (i == InvalidStatusCode && !AllCodes(field.value))
        || (i == TooManyAlternatives && AllCodes(field.value) && |field.value| > 32)
        || (i == MatchStringTooLong && AllCodes(field.value) && Oversized(field.value)))
  {
    if field.Some? {
      TooLongExactly(field.value);
      CodesNeedEvery(field.value);
    }
  }

  lemma ListsRaiseExactly(i: Issue, status: Option<seq<string>>, codes: Option<seq<string>>,
                          types: Option<seq<string>>, messages: Option<seq<string>>)
    ensures ListDeserves(i, status, codes, types, messages) <==>
      || StatusRaises(i, status)
      || ListRaises(i, codes, EmptyErrorCodes) || ListRaises(i, types, EmptyErrorTypes) || ListRaises(i, messages, EmptyMessageContains)
      || (i == EmptyMatch && status.None? && codes.None? && types.None? && messages.None?)
  {
    StatusRaisesExactly(i, status);
    ListRaisesExactly(i, codes, EmptyErrorCodes);
    ListRaisesExactly(i, types, EmptyErrorTypes);
    ListRaisesExactly(i, messages, EmptyMessageContains);
  }

  lemma MatchRaisesExactly(i: Issue, d: Draft)
    ensures MatchRaises(i, d) <==>
      ListDeserves(i, ListField(d.statusCodes), ListField(d.errorCodes), ListField(d.errorTypes), ListField(d.messageContains))
  {
    ListsRaiseExactly(i, ListField(d.statusCodes), ListField(d.errorCodes), ListField(d.errorTypes), ListField(d.messageContains));
  }

  /** Every issue is raised exactly where the form's rules, one by one, call for it. */
  lemma RaisedExactly(i: Issue, d: Draft, known: set<string>)
    ensures Raised(i, d, known) <==>
      || FieldDeserves(i, Trim(d.id), known, d.scope, Seconds(d.initialSeconds), Seconds(d.maxSeconds))
      || ListDeserves(i, ListField(d.statusCodes), ListField(d.errorCodes), ListField(d.errorTypes), ListField(d.messageContains))
  {
    MatchRaisesExactly(i, d);
  }

  /** A list field left empty is omitted; any other, also one of white space, is a list. */
  lemma OmittedExactly(raw: string)
    ensures ListField(raw) == if raw == "" then None else Some(Without(Unique(Trimmed(Split(raw))), ""))
  {
    CollectExactly(Split(raw));
  }

  /** An accepted rule has each of its fields from the draft's own. */
  lemma RuleReads(d: Draft, destinationId: Option<string>, known: set<string>)
    requires Acceptable(d, known)
    ensures var r := RuleOf(d, destinationId, known);
      && r.id == Trim(d.id) && r.destinationId == destinationId && r.enabled == d.enabled && Some(r.scope) == d.scope
      && Some(r.initialSeconds) == Seconds(d.initialSeconds) && Some(r.maxSeconds) == Seconds(d.maxSeconds)
      && r.matcher.errorCodes == ListField(d.errorCodes) && r.matcher.errorTypes == ListField(d.errorTypes)
      && r.matcher.messageContains == ListField(d.messageContains)
  {
    assert !Raised(InvalidScope, d, known) && !Raised(InvalidBackoffInitial, d, known) && !Raised(InvalidBackoffMax, d, known);
  }

  /** Its status codes are the numbers of the values listed, each once, in order of first occurrence. */
  lemma RuleReadsCodes(d: Draft, destinationId: Option<string>, known: set<string>)
    requires Acceptable(d, known)
    ensures var field, codes := ListField(d.statusCodes), RuleOf(d, destinationId, known).matcher.statusCodes;
      && (field.None? <==> codes.None?)
      && (field.Some? ==> AllCodes(field.value) && codes == Some(Unique(Values(field.value))))
  {
    assert !Raised(InvalidStatusCode, d, known);
    RaisedExactly(InvalidStatusCode, d, known);
    if ListField(d.statusCodes).Some? { CodesExactly(ListField(d.statusCodes).value); }
  }
}
