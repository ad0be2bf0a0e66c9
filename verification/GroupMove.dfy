/** Reordering within one destination group of the account list (src/domain/destination-groups.ts). */
module GroupMove {
  import opened Lists

  /** The members of `keys` in `ids`, in order. */
  function Members(ids: seq<string>, keys: set<string>): seq<string> {
    if ids == [] then []
    else Members(ids[..|ids| - 1], keys) + if ids[|ids| - 1] in keys then [ids[|ids| - 1]] else []
  }

  function Others(ids: seq<string>, keys: set<string>): seq<string> {
    if ids == [] then []
    else Others(ids[..|ids| - 1], keys) + if ids[|ids| - 1] in keys then [] else [ids[|ids| - 1]]
  }

  function Elements<T(==)>(s: seq<T>): set<T> { set x | x in s }

  /** The group's own list with one item moved by delta; None when it is not there or would leave the range. */
  function MovedGroup(group: seq<string>, id: string, delta: int): Option<seq<string>> {
    var from := IndexOf(group, id);
    var to := from + delta;
    if from == |group| || to < 0 || to >= |group| then None else Some(InsertAt(RemoveAt(group, from), to, id))
  }

  /**
   * None exactly when the group list cannot make the move or its places are not
   * as many as its items. Otherwise every other row keeps its place and the
   * group's places hold the moved group list, in order; the rows are permuted
   * exactly when those places held the items of the group. For lists without
   * duplicates this means: None exactly when the move is out of range or a
   * member is missing, and a permutation otherwise.
   */
  method MoveWithinGroup(accountIds: seq<string>, group: seq<string>, accountId: string, delta: int)
    returns (r: Option<seq<string>>)
    ensures r.None? <==>
      MovedGroup(group, accountId, delta).None? || |Members(accountIds, Elements(group))| != |group|
    ensures r.Some? ==>
      && FillsPlaces(accountIds, Elements(group), r.value)
      && Members(r.value, Elements(group)) == MovedGroup(group, accountId, delta).value
      && (multiset(r.value) == multiset(accountIds) <==> multiset(Members(accountIds, Elements(group))) == multiset(group))
    ensures Distinct(accountIds) && Distinct(group) ==>
      && (r.None? <==> MovedGroup(group, accountId, delta).None? || exists g :: g in group && g !in accountIds)
      && (r.Some? ==> multiset(r.value) == multiset(accountIds))
  {
    if Distinct(accountIds) && Distinct(group) { AllPresentWhenFull(accountIds, group); }
    var moved := MovedGroup(group, accountId, delta);
    if moved.None? { return None; }
    var nextKeys := moved.value;
    MovedGroupIsPermutation(group, accountId, delta);
    var result, next := FillPlaces(accountIds, group, nextKeys);
    if next != |nextKeys| { return None; }
    assert nextKeys[..next] == nextKeys;
    FilledIsPermutation(accountIds, group, nextKeys, result);
    if Distinct(accountIds) && Distinct(group) { MembersAreTheGroup(accountIds, group); }
    return Some(result);
  }

  /** What reading past the end of an array gives; a list that holds it is thrown away. */
  const UNDEFINED := "undefined"

  /** Overwrite the group's places, in order, with the new keys. */
  method FillPlaces(accountIds: seq<string>, group: seq<string>, nextKeys: seq<string>)
    returns (result: seq<string>, next: nat)
    requires multiset(nextKeys) == multiset(group)
    ensures next == |Members(accountIds, Elements(group))|
    ensures next <= |nextKeys| ==>
      FillsPlaces(accountIds, Elements(group), result) && Members(result, Elements(group)) == nextKeys[..next]
  {
    var keys := Elements(group);
    result, next := accountIds, 0;
    for index := 0 to |result|
      invariant |result| == |accountIds| && forall k :: index <= k < |result| ==> result[k] == accountIds[k]
      invariant next == |Members(accountIds[..index], keys)|
      invariant next <= |nextKeys| ==> Filled(accountIds, keys, nextKeys, result, index, next)
    {
      FilledOneMore(accountIds, group, nextKeys, result, index, next);
      assert accountIds[..index + 1][..index] == accountIds[..index];
      if result[index] in keys {
        result := result[index := if next < |nextKeys| then nextKeys[next] else UNDEFINED];
        next := next + 1;
      }
    }
    assert accountIds[..|accountIds|] == accountIds && result[..|result|] == result;
  }

  /** The places before `index` are filled with the first `next` keys, and the others are as they were. */
  ghost predicate Filled(ids: seq<string>, keys: set<string>, nextKeys: seq<string>, result: seq<string>, index: nat, next: nat) {
    && |result| == |ids| && index <= |ids| && (forall k :: index <= k < |ids| ==> result[k] == ids[k])
    && next == |Members(ids[..index], keys)| <= |nextKeys|
    && Members(result[..index], keys) == nextKeys[..next]
    && FillsPlaces(ids[..index], keys, result[..index])
  }

  lemma FilledOneMore(ids: seq<string>, group: seq<string>, nextKeys: seq<string>, result: seq<string>, index: nat, next: nat)
    requires multiset(nextKeys) == multiset(group) && index < |ids| == |result|
    requires next <= |nextKeys| ==> Filled(ids, Elements(group), nextKeys, result, index, next)
    ensures next < |nextKeys| && result[index] in Elements(group) ==>
      Filled(ids, Elements(group), nextKeys, result[index := nextKeys[next]], index + 1, next + 1)
    ensures next <= |nextKeys| && result[index] !in Elements(group) ==>
      Filled(ids, Elements(group), nextKeys, result, index + 1, next)
  {
    assert ids[..index + 1][..index] == ids[..index];
    if next < |nextKeys| && result[index] in Elements(group) {
      assert nextKeys[next] in multiset(nextKeys) && nextKeys[next] in group;
      FilledMember(ids, Elements(group), nextKeys, result, index, next);
    } else {
      assert result[..index + 1][..index] == result[..index];
    }
  }

  lemma FilledMember(ids: seq<string>, keys: set<string>, nextKeys: seq<string>, result: seq<string>, index: nat, next: nat)
    requires Filled(ids, keys, nextKeys, result, index, next) && index < |ids| && result[index] in keys
    requires next < |nextKeys| && nextKeys[next] in keys
    ensures Filled(ids, keys, nextKeys, result[index := nextKeys[next]], index + 1, next + 1)
  {
    var after := result[index := nextKeys[next]];
    assert ids[..index + 1][..index] == ids[..index];
    assert after[..index + 1][..index] == result[..index];
    assert nextKeys[..next + 1] == nextKeys[..next] + [nextKeys[next]];
  }

  /** Places outside the group are as they were; places of the group hold group members. */
  ghost predicate FillsPlaces(before: seq<string>, keys: set<string>, after: seq<string>) {
    && |after| == |before|
    && forall i :: 0 <= i < |before| ==> if before[i] in keys then after[i] in keys else after[i] == before[i]
  }

  lemma FilledIsPermutation(accountIds: seq<string>, group: seq<string>, nextKeys: seq<string>, result: seq<string>)
    requires multiset(nextKeys) == multiset(group)
    requires FillsPlaces(accountIds, Elements(group), result) && Members(result, Elements(group)) == nextKeys
    ensures multiset(result) == multiset(accountIds) <==> multiset(Members(accountIds, Elements(group))) == multiset(group)
  {
    var keys := Elements(group);
    Partition(result, keys);
    Partition(accountIds, keys);
    OthersStay(accountIds, result, keys);
    if multiset(result) == multiset(accountIds) {
      CancelItems(multiset(Members(accountIds, keys)), multiset(group), multiset(Others(accountIds, keys)));
    }
  }

  lemma MovedGroupIsPermutation(group: seq<string>, id: string, delta: int)
    requires MovedGroup(group, id, delta).Some?
    ensures |MovedGroup(group, id, delta).value| == |group|
    ensures multiset(MovedGroup(group, id, delta).value) == multiset(group)
  {
    var from := IndexOf(group, id);
    InsertedItems(RemoveAt(group, from), from + delta, id);
    InsertedItems(RemoveAt(group, from), from, id);
    InsertingBack(group, from);
  }

  /** The item is moved exactly when it is there and the place asked for is; there it stands, and the others keep their order. */
  lemma MovedGroupExactly(group: seq<string>, id: string, delta: int)
    ensures MovedGroup(group, id, delta).Some? <==> id in group && 0 <= IndexOf(group, id) + delta < |group|
    ensures MovedGroup(group, id, delta).Some? ==> StandsAt(group, MovedGroup(group, id, delta).value, id, IndexOf(group, id) + delta)
  {
    if MovedGroup(group, id, delta).Some? {
      RemovingTheInserted(RemoveAt(group, IndexOf(group, id)), IndexOf(group, id) + delta, id);
    }
  }

  /** `id` stands at `at`; without it the list is the group without it. */
  ghost predicate StandsAt(group: seq<string>, moved: seq<string>, id: string, at: int) {
    && id in group && 0 <= at < |moved| == |group|
    && moved[at] == id && RemoveAt(moved, at) == RemoveAt(group, IndexOf(group, id))
  }

  /** Members are taken in the order of the list. */
  lemma {:induction false} MembersInOrder(a: seq<string>, b: seq<string>, keys: set<string>)
    ensures Members(a + b, keys) == Members(a, keys) + Members(b, keys)
  {
    if b == [] {
      assert a + b == a;
    } else {
      assert (a + b)[..|a + b| - 1] == a + b[..|b| - 1];
      MembersInOrder(a, b[..|b| - 1], keys);
    }
  }

  /** Moving by delta and then by -delta is no move at all. */
  lemma MovedGroupUndone(group: seq<string>, id: string, delta: int)
    requires Distinct(group) && MovedGroup(group, id, delta).Some?
    ensures MovedGroup(MovedGroup(group, id, delta).value, id, -delta) == Some(group)
  {
    var from := IndexOf(group, id);
    var rest := RemoveAt(group, from);
    var moved := InsertAt(rest, from + delta, id);
    RemoveAtKeepsTheRest(group, from);
    RemovingTheInserted(rest, from + delta, id);
    FoundWhereInserted(rest, from + delta, id);
    InsertingBack(group, from);
  }

  lemma FoundWhereInserted(rest: seq<string>, at: nat, id: string)
    requires at <= |rest| && id !in rest
    ensures IndexOf(InsertAt(rest, at, id), id) == at
  {
    var moved := InsertAt(rest, at, id);
    assert moved[at] == id && forall j :: 0 <= j < at ==> moved[j] == rest[j];
  }

  lemma {:induction false} MembersAre(ids: seq<string>, keys: set<string>)
    ensures forall x :: x in Members(ids, keys) <==> x in ids && x in keys
    ensures Distinct(ids) ==> Distinct(Members(ids, keys))
  {
    if ids != [] {
      var front := ids[..|ids| - 1];
      MembersAre(front, keys);
      assert forall x :: x in ids <==> x in front || x == ids[|ids| - 1];
    }
  }

  lemma {:induction false} DistinctCount<T>(s: seq<T>)
    requires Distinct(s)
    ensures |Elements(s)| == |s|
  {
    if s != [] {
      var front := s[..|s| - 1];
      FrontAndLast(s);
      DistinctCount(front);
      assert Elements(s) == Elements(front) + {s[|s| - 1]};
    }
  }

  lemma SubsetCount<T>(a: set<T>, b: set<T>)
    requires a <= b
    ensures |a| <= |b| && (|a| == |b| ==> a == b)
  {
    assert b == a + (b - a);
    assert |b| == |a| + |b - a|;
  }

  /** The places are all filled exactly when every group member is in the list. */
  lemma AllPresentWhenFull(ids: seq<string>, group: seq<string>)
    requires Distinct(ids) && Distinct(group)
    ensures |Members(ids, Elements(group))| == |group| <==> forall g :: g in group ==> g in ids
  {
    var m := Members(ids, Elements(group));
    MembersAre(ids, Elements(group));
    DistinctCount(m);
    DistinctCount(group);
    SubsetCount(Elements(m), Elements(group));
    if forall g :: g in group ==> g in ids {
      assert Elements(m) == Elements(group);
    }
    if |m| == |group| {
      forall g | g in group ensures g in ids { assert g in Elements(m); }
    }
  }

  lemma MembersAreTheGroup(ids: seq<string>, group: seq<string>)
    requires Distinct(ids) && Distinct(group) && forall g :: g in group ==> g in ids
    ensures multiset(Members(ids, Elements(group))) == multiset(group)
  {
    MembersAre(ids, Elements(group));
    DistinctItems(Members(ids, Elements(group)));
    DistinctItems(group);
    assert Elements(Members(ids, Elements(group))) == Elements(group);
  }

  lemma OneMoreElement<T>(a: set<T>, x: T)
    requires x !in a
    ensures multiset(a + {x}) == multiset(a) + multiset{x}
  {
  }

  lemma {:induction false} DistinctItems<T>(s: seq<T>)
    requires Distinct(s)
    ensures multiset(s) == multiset(Elements(s))
  {
    if s != [] {
      var front := s[..|s| - 1];
      var last := s[|s| - 1];
      DistinctItems(front);
      assert s == front + [last];
      OneMoreElement(Elements(front), last);
      assert Elements(s) == Elements(front) + {last};
    }
  }

  lemma {:induction false} Partition(ids: seq<string>, keys: set<string>)
    ensures multiset(ids) == multiset(Members(ids, keys)) + multiset(Others(ids, keys))
  {
    if ids != [] {
      assert ids == ids[..|ids| - 1] + [ids[|ids| - 1]];
      Partition(ids[..|ids| - 1], keys);
    }
  }

  lemma {:induction false} OthersStay(a: seq<string>, b: seq<string>, keys: set<string>)
    requires FillsPlaces(a, keys, b)
    ensures Others(a, keys) == Others(b, keys)
  {
    if a != [] { OthersStay(a[..|a| - 1], b[..|b| - 1], keys); }
  }
}
