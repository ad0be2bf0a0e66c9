/** Strings as the policy form reads and writes them: trimming, delimited lists, decimal numbers. */
module PolicyText {
  import opened Lists

  /** WhiteSpace and LineTerminator of ECMA-262, which String.prototype.trim removes. */
  predicate IsSpace(c: char) {
    var u := c as int;
    9 <= u <= 13 || u == 0x20 || u == 0xA0 || u == 0x1680 || 0x2000 <= u <= 0x200A
    || u == 0x2028 || u == 0x2029 || u == 0x202F || u == 0x205F || u == 0x3000 || u == 0xFEFF
  }

  predicate IsSeparator(c: char) { c == '\n' || c == ',' }

  predicate IsDigit(c: char) { '0' <= c <= '9' }

  predicate AllDigits(s: string) { forall i :: 0 <= i < |s| ==> IsDigit(s[i]) }

  predicate SeparatorFree(s: string) { forall i :: 0 <= i < |s| ==> !IsSeparator(s[i]) }

  /** No white space at either end. */
  predicate Tight(s: string) { s == "" || (!IsSpace(s[0]) && !IsSpace(s[|s| - 1])) }

  function TrimStart(s: string): string {
    if s != "" && IsSpace(s[0]) then TrimStart(s[1..]) else s
  }

  function TrimEnd(s: string): string {
    if s != "" && IsSpace(s[|s| - 1]) then TrimEnd(s[..|s| - 1]) else s
  }

  function Trim(s: string): string { TrimEnd(TrimStart(s)) }

  function Utf8Length(s: string): nat {
    if s == "" then 0
    else
      var u := s[|s| - 1] as int;
      Utf8Length(s[..|s| - 1]) + if u < 0x80 then 1 else if u < 0x800 then 2 else if u < 0x10000 then 3 else 4
  }

  /** split(/[\n,]/) */
  function Split(s: string): (parts: seq<string>)
    ensures parts != []
  {
    if s == "" then [""]
    else
      var rest := Split(s[1..]);
      if IsSeparator(s[0]) then [""] + rest else [[s[0]] + rest[0]] + rest[1..]
  }

  function Join(items: seq<string>, glue: string): string {
    if items == [] then "" else if |items| == 1 then items[0] else items[0] + glue + Join(items[1..], glue)
  }

  /** The parts, trimmed, without empty ones and repetitions. */
  function Collect(parts: seq<string>): seq<string> {
    if parts == [] then []
    else
      var values, item := Collect(parts[..|parts| - 1]), Trim(parts[|parts| - 1]);
      if item == "" || item in values then values else values + [item]
  }

  method ParseDelimitedList(raw: string) returns (values: seq<string>)
    ensures values == Collect(Split(raw))
  {
    var parts := Split(raw);
    var seen: set<string> := {};
    values := [];
    for i := 0 to |parts|
      invariant values == Collect(parts[..i]) && forall v :: v in seen <==> v in values
    {
      assert parts[..i + 1][..i] == parts[..i];
      var item := Trim(parts[i]);
      if item != "" && item !in seen {
        seen := seen + {item};
        values := values + [item];
      }
    }
    assert parts[..|parts|] == parts;
  }

  // ---- Decimal numbers ---------------------------------------------------------

  /** Number(s) of a digit string. */
  function Value(s: string): nat
    requires AllDigits(s)
  {
    if s == "" then 0 else 10 * Value(s[..|s| - 1]) + (s[|s| - 1] as int - '0' as int)
  }

  /** String(n) */
  function Decimal(n: nat): (s: string)
    ensures s != "" && AllDigits(s)
  {
    (if n < 10 then "" else Decimal(n / 10)) + [('0' as int + n % 10) as char]
  }

  lemma {:induction false} DecimalRoundTrip(n: nat)
    ensures Value(Decimal(n)) == n
  {
    var s := Decimal(n);
    if n >= 10 {
      DecimalRoundTrip(n / 10);
      assert s[..|s| - 1] == Decimal(n / 10);
    } else {
      assert s[..|s| - 1] == "";
    }
  }

  lemma DigitsArePlain(c: char)
    requires IsDigit(c)
    ensures !IsSpace(c) && !IsSeparator(c)
  {
  }

  lemma DecimalsAreItems(n: nat)
    ensures Tight(Decimal(n)) && SeparatorFree(Decimal(n))
    ensures n < 1000 ==> Utf8Length(Decimal(n)) <= 3
  {
    var s := Decimal(n);
    forall i | 0 <= i < |s| ensures !IsSpace(s[i]) && !IsSeparator(s[i]) { DigitsArePlain(s[i]); }
    if n < 1000 {
      DecimalLength(n, 3, 1000);
      DigitsAreBytes(s);
    }
  }

  lemma {:induction false} DecimalLength(n: nat, digits: nat, limit: nat)
    requires n < limit && 0 < digits <= 3 && (limit == if digits == 1 then 10 else if digits == 2 then 100 else 1000)
    ensures |Decimal(n)| <= digits
  {
    if n >= 10 { DecimalLength(n / 10, digits - 1, limit / 10); }
  }

  lemma {:induction false} DigitsAreBytes(s: string)
    requires AllDigits(s)
    ensures Utf8Length(s) == |s|
  {
    if s != "" {
      assert IsDigit(s[|s| - 1]);
      DigitsAreBytes(s[..|s| - 1]);
    }
  }

  // ---- Trimming ------------------------------------------------------------------

  lemma {:induction false} TrimStartKeeps(s: string)
    ensures TrimStart(s) == "" || !IsSpace(TrimStart(s)[0])
    ensures SeparatorFree(s) ==> SeparatorFree(TrimStart(s))
  {
    if s != "" && IsSpace(s[0]) { TrimStartKeeps(s[1..]); }
  }

  lemma {:induction false} TrimEndKeeps(s: string)
    requires s == "" || !IsSpace(s[0])
    ensures Tight(TrimEnd(s))
    ensures SeparatorFree(s) ==> SeparatorFree(TrimEnd(s))
  {
    if s != "" && IsSpace(s[|s| - 1]) { TrimEndKeeps(s[..|s| - 1]); }
  }

  lemma TrimIsTight(s: string)
    ensures Tight(Trim(s))
    ensures SeparatorFree(s) ==> SeparatorFree(Trim(s))
    ensures Tight(s) ==> Trim(s) == s
  {
    TrimStartKeeps(s);
    TrimEndKeeps(TrimStart(s));
  }

  lemma {:induction false} TrimDropsPadding(pad: string, s: string)
    requires (forall i :: 0 <= i < |pad| ==> IsSpace(pad[i])) && Tight(s) && s != ""
    ensures Trim(pad + s) == s
  {
    if pad == "" {
      assert pad + s == s;
      TrimIsTight(s);
    } else {
      assert (pad + s)[1..] == pad[1..] + s;
      TrimDropsPadding(pad[1..], s);
    }
  }

  // ---- Splitting what was joined -----------------------------------------------------

  /** What the parser keeps: non-empty, trimmed, without separators. */
  predicate IsItem(s: string) { s != "" && Tight(s) && SeparatorFree(s) }

  lemma {:induction false} SplitIsSeparatorFree(s: string)
    ensures forall i :: 0 <= i < |Split(s)| ==> SeparatorFree(Split(s)[i])
  {
    if s != "" { SplitIsSeparatorFree(s[1..]); }
  }

  lemma {:induction false} SplitAtFirst(item: string, c: char, rest: string)
    requires SeparatorFree(item) && IsSeparator(c)
    ensures Split(item + [c] + rest) == [item] + Split(rest)
    ensures Split(item) == [item]
  {
    var s := item + [c] + rest;
    if item == "" {
      assert s[0] == c && s[1..] == rest;
    } else {
      SplitAtFirst(item[1..], c, rest);
      assert s[0] == item[0] && s[1..] == item[1..] + [c] + rest;
      assert !IsSeparator(item[0]) && [item[0]] + item[1..] == item;
    }
  }

  lemma {:induction false} CollectKeepsItems(parts: seq<string>)
    requires forall i :: 0 <= i < |parts| ==> SeparatorFree(parts[i])
    ensures Distinct(Collect(parts)) && forall v :: v in Collect(parts) ==> IsItem(v)
    ensures |Collect(parts)| <= |parts|
  {
    if parts != [] {
      CollectKeepsItems(parts[..|parts| - 1]);
      TrimIsTight(parts[|parts| - 1]);
    }
  }

  /** The parts of a joined list: every one but the first still carries the padding after its separator. */
  ghost function Padded(items: seq<string>, pad: string): seq<string> {
    seq(|items|, i requires 0 <= i < |items| => if i == 0 then items[i] else pad + items[i])
  }

  ghost predicate IsPadding(pad: string) {
    forall i :: 0 <= i < |pad| ==> IsSpace(pad[i]) && !IsSeparator(pad[i])
  }

  lemma {:induction false} SplitJoined(items: seq<string>, c: char, pad: string)
    requires items != [] && IsSeparator(c) && IsPadding(pad)
    requires forall i :: 0 <= i < |items| ==> SeparatorFree(items[i])
    ensures Split(Join(items, [c] + pad)) == Padded(items, pad)
    decreases |items|
  {
    if |items| == 1 {
      SplitAtFirst(items[0], c, "");
    } else {
      var padded := [pad + items[1]] + items[2..];
      var rest := Join(items[1..], [c] + pad);
      assert Join(items, [c] + pad) == items[0] + [c] + (pad + rest);
      SplitAtFirst(items[0], c, pad + rest);
      JoinPadded(items, [c] + pad, pad);
      SplitJoined(padded, c, pad);
      assert Padded(items, pad) == [items[0]] + Padded(padded, pad);
    }
  }

  lemma JoinPadded(items: seq<string>, glue: string, pad: string)
    requires |items| >= 2
    ensures pad + Join(items[1..], glue) == Join([pad + items[1]] + items[2..], glue)
  {
    var padded := [pad + items[1]] + items[2..];
    if |items| > 2 {
      assert padded[1..] == items[1..][1..];
    }
  }

  lemma {:induction false} CollectPadded(items: seq<string>, pad: string)
    requires IsPadding(pad) && Distinct(items) && forall i :: 0 <= i < |items| ==> IsItem(items[i])
    ensures Collect(Padded(items, pad)) == items
  {
    if items != [] {
      var n := |items| - 1;
      var front, last := items[..n], items[n];
      CollectPadded(front, pad);
      var parts := Padded(items, pad);
      assert parts[..n] == Padded(front, pad);
      PaddedTrims(items, pad, n);
      assert last !in front && last != "";
      assert items == front + [last];
    }
  }

  lemma PaddedTrims(items: seq<string>, pad: string, n: nat)
    requires IsPadding(pad) && n < |items| && IsItem(items[n])
    ensures Trim(Padded(items, pad)[n]) == items[n]
  {
    var before := if n == 0 then "" else pad;
    TrimDropsPadding(before, items[n]);
    assert Padded(items, pad)[n] == before + items[n];
  }

  /** Parsing a printed list gives it back. */
  lemma ListRoundTrip(items: seq<string>, c: char, pad: string)
    requires items != [] && IsSeparator(c) && IsPadding(pad)
    requires Distinct(items) && forall i :: 0 <= i < |items| ==> IsItem(items[i])
    ensures Collect(Split(Join(items, [c] + pad))) == items
    ensures Join(items, [c] + pad) != ""
  {
    SplitJoined(items, c, pad);
    CollectPadded(items, pad);
  }
}
