/** Options, duplicate-free lists and list surgery shared by the other modules. */
module Lists {

  datatype Option<+T> = None | Some(value: T)

  ghost predicate Distinct<T>(s: seq<T>) {
    forall i, j :: 0 <= i < j < |s| ==> s[i] != s[j]
  }

  /** Position of the first `x`, or |s| when it does not occur. */
  function IndexOf<T(==)>(s: seq<T>, x: T): (i: nat)
    ensures i <= |s|
    ensures i < |s| <==> x in s
    ensures i < |s| ==> s[i] == x
    ensures forall j :: 0 <= j < i ==> s[j] != x
  {
    if s == [] then 0 else if s[0] == x then 0 else 1 + IndexOf(s[1..], x)
  }

  lemma FrontAndLast<T>(s: seq<T>)
    requires s != []
    ensures s == s[..|s| - 1] + [s[|s| - 1]]
    ensures Distinct(s) ==> s[|s| - 1] !in s[..|s| - 1]
  {
  }

  function RemoveAt<T>(s: seq<T>, i: nat): seq<T>
    requires i < |s|
  {
    s[..i] + s[i + 1..]
  }

  function InsertAt<T>(s: seq<T>, i: nat, x: T): seq<T>
    requires i <= |s|
  {
    s[..i] + [x] + s[i..]
  }

  /** The members of `s` other than `x`, in order. */
  function Without<T(==)>(s: seq<T>, x: T): seq<T> {
    if s == [] then [] else (if s[0] == x then [] else [s[0]]) + Without(s[1..], x)
  }

  lemma RemoveAtKeepsTheRest<T>(s: seq<T>, i: nat)
    requires i < |s| && Distinct(s)
    ensures Distinct(RemoveAt(s, i))
    ensures forall x :: x in RemoveAt(s, i) <==> x in s && x != s[i]
  {
    var r := RemoveAt(s, i);
    forall x | x in s && x != s[i] ensures x in r {
      var k :| 0 <= k < |s| && s[k] == x;
      assert r[if k < i then k else k - 1] == x;
    }
  }

  lemma RemovingAnEarlierItem<T>(s: seq<T>, i: nat, x: T)
    requires Distinct(s) && i < IndexOf(s, x) < |s|
    ensures IndexOf(RemoveAt(s, i), x) + 1 == IndexOf(s, x)
  {
    RemoveAtKeepsTheRest(s, i);
    assert RemoveAt(s, i)[IndexOf(s, x) - 1] == x;
  }

  lemma {:induction false} WithoutConcat<T>(s: seq<T>, t: seq<T>, x: T)
    ensures Without(s + t, x) == Without(s, x) + Without(t, x)
  {
    if s == [] {
      assert s + t == t;
    } else {
      assert (s + t)[1..] == s[1..] + t;
      WithoutConcat(s[1..], t, x);
    }
  }

  lemma {:induction false} WithoutDropsAll<T>(s: seq<T>, x: T)
    ensures multiset(Without(s, x)) == multiset(s)[x := 0]
    ensures x !in s ==> Without(s, x) == s
  {
    if s != [] {
      assert s == [s[0]] + s[1..];
      WithoutDropsAll(s[1..], x);
    }
  }

  lemma WithoutItself<T>(x: T)
    ensures Without([x], x) == []
  {
    assert [x][1..] == [];
  }

  lemma WithoutInserted<T>(s: seq<T>, i: nat, x: T)
    requires i <= |s|
    ensures Without(InsertAt(s, i, x), x) == Without(s, x)
  {
    var a, b := s[..i], s[i..];
    assert s == a + b;
    WithoutConcat(a, b, x);
    WithoutConcat(a, [x], x);
    WithoutConcat(a + [x], b, x);
    WithoutItself(x);
    assert Without(a, x) + [] == Without(a, x);
  }

  lemma InsertedMembers<T>(s: seq<T>, i: nat, x: T)
    requires i <= |s|
    ensures forall y :: y in InsertAt(s, i, x) <==> y in s || y == x
  {
    assert s == s[..i] + s[i..];
  }

  lemma {:induction false} WithoutMembers<T>(s: seq<T>, x: T)
    ensures forall y :: y in Without(s, x) <==> y in s && y != x
  {
    if s != [] {
      WithoutMembers(s[1..], x);
      assert s == [s[0]] + s[1..];
    }
  }

  lemma InsertedItems<T>(s: seq<T>, i: nat, x: T)
    requires i <= |s|
    ensures multiset(InsertAt(s, i, x)) == multiset(s) + multiset{x}
  {
    assert s == s[..i] + s[i..];
  }

  lemma WithoutRemoved<T>(s: seq<T>, i: nat)
    requires i < |s|
    ensures Without(RemoveAt(s, i), s[i]) == Without(s, s[i])
  {
    WithoutInserted(RemoveAt(s, i), i, s[i]);
    InsertingBack(s, i);
  }

  lemma InsertingBack<T>(s: seq<T>, i: nat)
    requires i < |s|
    ensures InsertAt(RemoveAt(s, i), i, s[i]) == s
  {
  }

  lemma RemovingTheInserted<T>(s: seq<T>, i: nat, x: T)
    requires i <= |s|
    ensures RemoveAt(InsertAt(s, i, x), i) == s && InsertAt(s, i, x)[i] == x
  {
  }

  /** Moving an item and moving it back. */
  lemma MoveUndone<T>(s: seq<T>, from: nat, to: nat)
    requires from < |s| && to < |s|
    ensures var t := InsertAt(RemoveAt(s, from), to, s[from]);
      |t| == |s| && t[to] == s[from] && InsertAt(RemoveAt(t, to), from, t[to]) == s
  {
    var t := InsertAt(RemoveAt(s, from), to, s[from]);
    assert RemoveAt(t, to) == RemoveAt(s, from);
    assert InsertAt(RemoveAt(s, from), from, s[from]) == s;
  }

  /** Cancelling what two counts have in common. */
  lemma CancelItems<T>(a: multiset<T>, b: multiset<T>, common: multiset<T>)
    requires a + common == b + common
    ensures a == b
  {
    forall x ensures a[x] == b[x] {
      assert (a + common)[x] == (b + common)[x];
    }
  }

  predicate Ascending(s: seq<nat>) {
    forall i, j :: 0 <= i < j < |s| ==> s[i] < s[j]
  }

  lemma InsertKeepsAscending(s: seq<nat>, k: nat, x: nat)
    requires Ascending(s) && k <= |s|
    requires (forall j :: 0 <= j < k ==> s[j] < x) && (forall j :: k <= j < |s| ==> x < s[j])
    ensures Ascending(InsertAt(s, k, x))
    ensures forall t :: t in InsertAt(s, k, x) <==> t in s || t == x
  {
    assert s == s[..k] + s[k..];
  }

  /** Array.sort of distinct numbers, or of names that compare as numbers. */
  method SortAscending(items: seq<nat>) returns (sorted: seq<nat>)
    requires Distinct(items)
    ensures Ascending(sorted) && forall t :: t in sorted <==> t in items
  {
    sorted := [];
    for i := 0 to |items|
      invariant Ascending(sorted) && forall t :: t in sorted <==> t in items[..i]
    {
      var item, k: nat := items[i], |sorted|;
      while k > 0 && sorted[k - 1] > item
        invariant k <= |sorted| && forall j :: k <= j < |sorted| ==> sorted[j] > item
      {
        k := k - 1;
      }
      assert item !in items[..i];
      assert items[..i + 1] == items[..i] + [item];
      forall j | 0 <= j < k ensures sorted[j] < item { assert sorted[j] in sorted && sorted[j] <= sorted[k - 1]; }
      InsertKeepsAscending(sorted, k, item);
      sorted := InsertAt(sorted, k, item);
    }
    assert items[..|items|] == items;
  }

  /** First occurrences, in order. */
  function Unique<T(==,!new)>(s: seq<T>): (r: seq<T>)
    ensures Distinct(r) && forall x :: x in r <==> x in s
  {
    if s == [] then []
    else
      var front := Unique(s[..|s| - 1]);
      assert s == s[..|s| - 1] + [s[|s| - 1]];
      if s[|s| - 1] in front then front else front + [s[|s| - 1]]
  }

  lemma IndexOfLonger<T>(s: seq<T>, last: T, x: T)
    ensures IndexOf(s + [last], x) == if x in s then IndexOf(s, x) else if x == last then |s| else |s| + 1
  {
    var i := IndexOf(s + [last], x);
    if x in s { assert (s + [last])[IndexOf(s, x)] == x; } else if x == last { assert (s + [last])[|s|] == x; }
    if i < |s| { assert s[i] == x; }
  }

  /** Members keep the order of their first occurrences. */
  lemma {:induction false} UniqueInOrder<T(!new)>(s: seq<T>, x: T, y: T)
    requires x in s && y in s
    ensures IndexOf(Unique(s), x) < IndexOf(Unique(s), y) <==> IndexOf(s, x) < IndexOf(s, y)
  {
    var front, last := s[..|s| - 1], s[|s| - 1];
    assert s == front + [last];
    IndexOfLonger(front, last, x);
    IndexOfLonger(front, last, y);
    IndexOfLonger(Unique(front), last, x);
    IndexOfLonger(Unique(front), last, y);
    if x in front && y in front { UniqueInOrder(front, x, y); }
  }

  lemma FirstIsMember<T>(s: seq<T>)
    ensures s != [] ==> s[0] in s
  {
  }

  /** Duplicate-free lists of the same members are as long. */
  lemma {:induction false} SameMembersSameLength<T>(s: seq<T>, t: seq<T>)
    requires Distinct(s) && Distinct(t) && forall x :: x in s <==> x in t
    ensures |s| == |t|
  {
    if s != [] {
      var k := IndexOf(t, s[0]);
      RemoveAtKeepsTheRest(s, 0);
      RemoveAtKeepsTheRest(t, k);
      assert RemoveAt(s, 0) == s[1..];
      SameMembersSameLength(s[1..], RemoveAt(t, k));
    } else {
      FirstIsMember(t);
    }
  }
}
