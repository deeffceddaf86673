/** Filtering, and the stable sort that `sorted`, `list.sort` and ORDER BY stand for. */
module Sorting {
  function Filter<T>(keep: T -> bool, s: seq<T>): seq<T> {
    if s == [] then []
    else if keep(s[0]) then [s[0]] + Filter(keep, s[1..])
    else Filter(keep, s[1..])
  }

  predicate NoRepeats<T(==)>(s: seq<T>) {
    forall i, j :: 0 <= i < j < |s| ==> s[i] != s[j]
  }

  /** `before(x, y)`: x may stand ahead of y. Ties are allowed. */
  ghost predicate TotalPreorder<T(!new)>(before: (T, T) -> bool) {
    && (forall x, y :: before(x, y) || before(y, x))
    && (forall x, y, z :: before(x, y) && before(y, z) ==> before(x, z))
  }

  ghost predicate Sorted<T>(before: (T, T) -> bool, s: seq<T>) {
    forall i, j :: 0 <= i < j < |s| ==> before(s[i], s[j])
  }

  function Insert<T>(before: (T, T) -> bool, x: T, s: seq<T>): seq<T> {
    if s == [] then [x]
    else if before(x, s[0]) then [x] + s
    else [s[0]] + Insert(before, x, s[1..])
  }

  function Sort<T>(before: (T, T) -> bool, s: seq<T>): seq<T> {
    if s == [] then [] else Insert(before, s[0], Sort(before, s[1..]))
  }

  // ---- Filtering -------------------------------------------------------------------------------------

  lemma {:induction false} FilterMembers<T>(keep: T -> bool, s: seq<T>)
    ensures forall x :: x in Filter(keep, s) <==> x in s && keep(x)
    ensures |Filter(keep, s)| <= |s|
  {
    if s != [] {
      FilterMembers(keep, s[1..]);
      assert s == [s[0]] + s[1..];
    }
  }

  // ---- Where each element goes -----------------------------------------------------------------------

  /** `t` is `s` rearranged: its `k`-th element was at `places[k]`, and every place is taken once. */
  ghost predicate IsRearranged<T>(s: seq<T>, t: seq<T>, places: seq<nat>) {
    && |t| == |places| && NoRepeats(places) && (forall i: nat :: i in places <==> i < |s|)
    && forall k :: 0 <= k < |places| ==> places[k] < |s| && t[k] == s[places[k]]
  }

  /** Of two elements that may stand in either order, the one written first stays first. */
  ghost predicate IsStable<T>(before: (T, T) -> bool, s: seq<T>, places: seq<nat>)
    requires forall k :: 0 <= k < |places| ==> places[k] < |s|
  {
    forall k, l :: 0 <= k < l < |places| && before(s[places[l]], s[places[k]]) ==> places[k] < places[l]
  }

  /** The places once one more element has come first and gone to place `m`. */
  function WithFirst(places: seq<nat>, m: nat): (r: seq<nat>)
    requires m <= |places|
    ensures |r| == |places| + 1
    ensures forall k :: 0 <= k < |r| ==>
                          r[k] == if k < m then places[k] + 1 else if k == m then 0 else places[k - 1] + 1
  {
    seq(|places| + 1, k requires 0 <= k <= |places| =>
      if k < m then places[k] + 1 else if k == m then 0 else places[k - 1] + 1)
  }

  /** `t` is `s` with `x` put at place `m`. */
  predicate IsInserted<T(==)>(x: T, s: seq<T>, t: seq<T>, m: nat) {
    && m <= |s| && |t| == |s| + 1 && t[m] == x
    && (forall k :: 0 <= k < m ==> t[k] == s[k])
    && (forall k :: m <= k < |s| ==> t[k + 1] == s[k])
  }
  lemma {:induction false} InsertPlace<T>(before: (T, T) -> bool, x: T, s: seq<T>) returns (m: nat)
    ensures IsInserted(x, s, Insert(before, x, s), m)
    ensures forall k :: 0 <= k < m ==> !before(x, s[k])
  {
    if s == [] || before(x, s[0]) {
      m := 0;
    } else {
      var n := InsertPlace(before, x, s[1..]);
      m := n + 1;
      var rest := Insert(before, x, s[1..]);
      var t := Insert(before, x, s);
      assert t == [s[0]] + rest;
      forall k | 0 <= k < m ensures t[k] == s[k] { if k > 0 { assert rest[k - 1] == s[1..][k - 1]; } }
      forall k | m <= k < |s| ensures t[k + 1] == s[k] { assert rest[k - 1 + 1] == s[1..][k - 1]; }
    }
  }

  lemma PlacesWithFirst(places: seq<nat>, m: nat, n: nat)
    requires m <= |places| && NoRepeats(places) && forall i: nat :: i in places <==> i < n
    ensures NoRepeats(WithFirst(places, m)) && forall i: nat :: i in WithFirst(places, m) <==> i < n + 1
  {
    var all := WithFirst(places, m);
    forall i: nat | i < n + 1 ensures i in all {
      if i == 0 {
        assert all[m] == 0;
      } else {
        assert i - 1 in places;
        var k :| 0 <= k < |places| && places[k] == i - 1;
        assert all[if k < m then k else k + 1] == i;
      }
    }
    forall k | 0 <= k < |all| ensures all[k] < n + 1 {
      if k < m { assert places[k] in places; } else if k > m { assert places[k - 1] in places; }
    }
    forall k, l | 0 <= k < l < |all| ensures all[k] != all[l] {
      var a, b := if k < m then k else k - 1, if l < m then l else l - 1;
      if k != m && l != m { assert places[a] != places[b]; }
    }
  }

  /** Sorting moves every element to a place of its own and keeps the order of those that tie. */
  lemma {:induction false} SortPlaces<T>(before: (T, T) -> bool, s: seq<T>) returns (places: seq<nat>)
    ensures IsRearranged(s, Sort(before, s), places)
    ensures IsStable(before, s, places)
  {
    if s == [] {
      places := [];
    } else {
      var rest := SortPlaces(before, s[1..]);
      var m := InsertPlace(before, s[0], Sort(before, s[1..]));
      PlacesWithFirst(rest, m, |s| - 1);
      places := WithFirst(rest, m);
      SortedWithFirst(before, s, Sort(before, s[1..]), Sort(before, s), rest, m);
    }
  }

  lemma SortedWithFirst<T>(before: (T, T) -> bool, s: seq<T>, t: seq<T>, t': seq<T>, rest: seq<nat>, m: nat)
    requires s != [] && IsRearranged(s[1..], t, rest) && IsStable(before, s[1..], rest)
    requires IsInserted(s[0], t, t', m) && forall k :: 0 <= k < m ==> !before(s[0], t[k])
    ensures forall k :: 0 <= k < |t'| ==> WithFirst(rest, m)[k] < |s| && t'[k] == s[WithFirst(rest, m)[k]]
    ensures IsStable(before, s, WithFirst(rest, m))
  {
    hide NoRepeats, IsStable, IsRearranged, IsInserted;
    Sizes(s[1..], t, rest, s[0], t', m);
    var places := WithFirst(rest, m);
    forall k | 0 <= k < |t'| ensures places[k] < |s| && t'[k] == s[places[k]] {
      PlaceWithFirst(s, t, t', rest, m, k);
    }
    forall k, l | 0 <= k < l < |places| && before(s[places[l]], s[places[k]]) ensures places[k] < places[l] {
      PlaceWithFirst(s, t, t', rest, m, k);
      PlaceWithFirst(s, t, t', rest, m, l);
      if k != m && l != m {
        PlacesStayInOrder(before, s, t, rest, if k < m then k else k - 1, if l < m then l else l - 1);
      }
    }
    StableIs(before, s, places);
  }

  lemma Sizes<T>(s: seq<T>, t: seq<T>, rest: seq<nat>, x: T, t': seq<T>, m: nat)
    requires IsRearranged(s, t, rest) && IsInserted(x, t, t', m)
    ensures |rest| == |t| && |t'| == |t| + 1 && m <= |t|
  {
  }

  lemma StableIs<T>(before: (T, T) -> bool, s: seq<T>, places: seq<nat>)
    requires forall k :: 0 <= k < |places| ==> places[k] < |s|
    requires forall k, l :: 0 <= k < l < |places| && before(s[places[l]], s[places[k]]) ==> places[k] < places[l]
    ensures IsStable(before, s, places)
  {
  }

  lemma PlaceWithFirst<T>(s: seq<T>, t: seq<T>, t': seq<T>, rest: seq<nat>, m: nat, k: nat)
    requires s != [] && IsRearranged(s[1..], t, rest) && IsInserted(s[0], t, t', m) && k < |t'|
    ensures WithFirst(rest, m)[k] < |s| && t'[k] == s[WithFirst(rest, m)[k]]
    ensures k < m ==> t'[k] == t[k]
    ensures k != m ==> var a := if k < m then k else k - 1;
                       WithFirst(rest, m)[k] == rest[a] + 1 && rest[a] < |s| - 1
  {
    hide NoRepeats;
    if k != m {
      var a := if k < m then k else k - 1;
      assert t[a] == s[1..][rest[a]];
      if k > m { assert t'[a + 1] == t[a]; }
    }
  }

  lemma PlacesStayInOrder<T>(before: (T, T) -> bool, s: seq<T>, t: seq<T>, rest: seq<nat>, a: nat, b: nat)
    requires s != [] && IsRearranged(s[1..], t, rest) && IsStable(before, s[1..], rest)
    requires a < b < |rest| && rest[a] < |s| - 1 && rest[b] < |s| - 1 && before(s[rest[b] + 1], s[rest[a] + 1])
    ensures rest[a] < rest[b]
  {
    hide NoRepeats;
    assert s[1..][rest[b]] == s[rest[b] + 1] && s[1..][rest[a]] == s[rest[a] + 1];
  }

  lemma FilterCons<T>(keep: T -> bool, x: T, s: seq<T>)
    ensures Filter(keep, [x] + s) == if keep(x) then [x] + Filter(keep, s) else Filter(keep, s)
  {
  }

  lemma SortCons<T>(before: (T, T) -> bool, x: T, s: seq<T>)
    ensures Sort(before, [x] + s) == Insert(before, x, Sort(before, s))
  {
  }

  lemma {:induction false} FilterConcat<T>(keep: T -> bool, s: seq<T>, t: seq<T>)
    ensures Filter(keep, s + t) == Filter(keep, s) + Filter(keep, t)
  {
    if s == [] {
      assert s + t == t;
    } else {
      FilterConcat(keep, s[1..], t);
      assert s + t == [s[0]] + (s[1..] + t);
      FilterCons(keep, s[0], s[1..] + t);
    }
  }

  lemma {:induction false} FilterMultiset<T>(keep: T -> bool, s: seq<T>, x: T)
    ensures multiset(Filter(keep, s))[x] == if keep(x) then multiset(s)[x] else 0
  {
    if s != [] {
      FilterMultiset(keep, s[1..], x);
      assert s == [s[0]] + s[1..];
      assert multiset(s) == multiset([s[0]]) + multiset(s[1..]);
    }
  }

  lemma {:induction false} FilterAt<T>(keep: T -> bool, s: seq<T>, k: nat) returns (i: nat)
    requires k < |Filter(keep, s)|
    ensures i < |s| && s[i] == Filter(keep, s)[k] && keep(s[i])
  {
    if keep(s[0]) && k == 0 { return 0; }
    i := FilterAt(keep, s[1..], if keep(s[0]) then k - 1 else k);
    i := i + 1;
  }

  lemma FilterAppend<T>(keep: T -> bool, s: seq<T>, x: T)
    ensures Filter(keep, s + [x]) == Filter(keep, s) + if keep(x) then [x] else []
  {
    FilterConcat(keep, s, [x]);
    assert [x] + [] == [x];
    FilterCons(keep, x, []);
  }

  lemma {:induction false} FilterAll<T>(keep: T -> bool, s: seq<T>)
    requires forall x :: x in s ==> keep(x)
    ensures Filter(keep, s) == s
  {
    if s != [] {
      FilterAll(keep, s[1..]);
      assert s == [s[0]] + s[1..];
    }
  }

  lemma {:induction false} FilterFilter<T>(p: T -> bool, q: T -> bool, s: seq<T>)
    ensures Filter(p, Filter(q, s)) == Filter(q, Filter(p, s))
  {
    if s != [] {
      FilterFilter(p, q, s[1..]);
      FilterCons(p, s[0], Filter(q, s[1..]));
      FilterCons(q, s[0], Filter(p, s[1..]));
    }
  }

  lemma {:induction false} FilterSameOn<T>(p: T -> bool, q: T -> bool, s: seq<T>)
    requires forall x :: x in s ==> p(x) == q(x)
    ensures Filter(p, s) == Filter(q, s)
  {
    if s != [] { FilterSameOn(p, q, s[1..]); }
  }

  lemma {:induction false} FilterNoRepeats<T>(keep: T -> bool, s: seq<T>)
    requires NoRepeats(s)
    ensures NoRepeats(Filter(keep, s))
  {
    if s != [] {
      FilterNoRepeats(keep, s[1..]);
      FilterMembers(keep, s[1..]);
    }
  }

  lemma {:induction false} FilterKeepsSorted<T>(before: (T, T) -> bool, keep: T -> bool, s: seq<T>)
    requires Sorted(before, s)
    ensures Sorted(before, Filter(keep, s))
  {
    if s != [] {
      FilterKeepsSorted(before, keep, s[1..]);
      var tail, rest := s[1..], Filter(keep, s[1..]);
      forall k | 0 <= k < |rest| ensures before(s[0], rest[k]) {
        var i := FilterAt(keep, tail, k);
        assert before(s[0], s[i + 1]);
      }
    }
  }

  /** Two lists without repetitions and with the same members are permutations of each other. */
  lemma SameMembersSameMultiset<T>(s: seq<T>, t: seq<T>)
    requires NoRepeats(s) && NoRepeats(t) && forall x :: x in s <==> x in t
    ensures multiset(s) == multiset(t)
  {
    NoRepeatsCounts(s);
    NoRepeatsCounts(t);
    forall x ensures multiset(s)[x] == multiset(t)[x] {
      assert x in s <==> x in t;
    }
  }

  lemma PermutationHasNoRepeats<T>(s: seq<T>, t: seq<T>)
    requires NoRepeats(t) && multiset(s) == multiset(t)
    ensures NoRepeats(s)
  {
    NoRepeatsCounts(t);
    forall i, j | 0 <= i < j < |s| ensures s[i] != s[j] {
      var front, back := s[..j], s[j..];
      assert s == front + back && front[i] == s[i] && back[0] == s[j];
      assert front[i] in multiset(front) && back[0] in multiset(back);
      assert multiset(s) == multiset(front) + multiset(back);
      assert s[i] in multiset(s);
    }
  }

  lemma {:induction false} NoRepeatsCounts<T>(s: seq<T>)
    requires NoRepeats(s)
    ensures forall x :: multiset(s)[x] == if x in s then 1 else 0
  {
    if s != [] {
      NoRepeatsCounts(s[1..]);
      assert s == [s[0]] + s[1..];
      assert multiset(s) == multiset{s[0]} + multiset(s[1..]);
      assert s[0] !in s[1..];
    }
  }

  // ---- Sorting ---------------------------------------------------------------------------------------

  lemma {:induction false} InsertMultiset<T>(before: (T, T) -> bool, x: T, s: seq<T>)
    ensures multiset(Insert(before, x, s)) == multiset{x} + multiset(s)
    ensures |Insert(before, x, s)| == |s| + 1
  {
    if s != [] && !before(x, s[0]) {
      InsertMultiset(before, x, s[1..]);
      assert s == [s[0]] + s[1..];
    }
  }

  lemma {:induction false} SortMultiset<T>(before: (T, T) -> bool, s: seq<T>)
    ensures multiset(Sort(before, s)) == multiset(s)
    ensures |Sort(before, s)| == |s|
  {
    if s != [] {
      SortMultiset(before, s[1..]);
      InsertMultiset(before, s[0], Sort(before, s[1..]));
      assert s == [s[0]] + s[1..];
    }
  }

  lemma SortMembers<T>(before: (T, T) -> bool, s: seq<T>)
    ensures forall x :: x in Sort(before, s) <==> x in s
  {
    SortMultiset(before, s);
    forall x ensures x in Sort(before, s) <==> x in s {
      assert x in Sort(before, s) <==> x in multiset(Sort(before, s));
      assert x in s <==> x in multiset(s);
    }
  }

  lemma {:induction false} InsertKeepsSorted<T(!new)>(before: (T, T) -> bool, x: T, s: seq<T>)
    requires TotalPreorder(before) && Sorted(before, s)
    ensures Sorted(before, Insert(before, x, s))
  {
    if s != [] && !before(x, s[0]) {
      InsertKeepsSorted(before, x, s[1..]);
      InsertMultiset(before, x, s[1..]);
      var rest := Insert(before, x, s[1..]);
      forall k | 0 <= k < |rest| ensures before(s[0], rest[k]) {
        assert rest[k] in multiset(rest);
        assert rest[k] == x || rest[k] in s[1..];
      }
    }
  }

  lemma {:induction false} SortIsSorted<T(!new)>(before: (T, T) -> bool, s: seq<T>)
    requires TotalPreorder(before)
    ensures Sorted(before, Sort(before, s))
  {
    if s != [] {
      SortIsSorted(before, s[1..]);
      InsertKeepsSorted(before, s[0], Sort(before, s[1..]));
    }
  }

  /** Filtering a sorted list and sorting a filtered one give the same list in the same order. */
  lemma {:induction false} FilterInsert<T(!new)>(before: (T, T) -> bool, keep: T -> bool, x: T, s: seq<T>)
    requires TotalPreorder(before) && Sorted(before, s)
    ensures Filter(keep, Insert(before, x, s)) ==
            if keep(x) then Insert(before, x, Filter(keep, s)) else Filter(keep, s)
  {
    if s == [] || before(x, s[0]) {
      FilterCons(keep, x, s);
      InsertAtFront(before, x, s, keep);
    } else {
      FilterInsert(before, keep, x, s[1..]);
      FilterCons(keep, s[0], Insert(before, x, s[1..]));
      var rest := Filter(keep, s[1..]);
      assert ([s[0]] + rest)[1..] == rest;
    }
  }

  lemma InsertAtFront<T(!new)>(before: (T, T) -> bool, x: T, s: seq<T>, keep: T -> bool)
    requires TotalPreorder(before) && Sorted(before, s) && (s == [] || before(x, s[0]))
    ensures Insert(before, x, Filter(keep, s)) == [x] + Filter(keep, s)
  {
  }

  lemma {:induction false} FilterSort<T(!new)>(before: (T, T) -> bool, keep: T -> bool, s: seq<T>)
    requires TotalPreorder(before)
    ensures Filter(keep, Sort(before, s)) == Sort(before, Filter(keep, s))
  {
    if s != [] {
      FilterSort(before, keep, s[1..]);
      SortIsSorted(before, s[1..]);
      FilterInsert(before, keep, s[0], Sort(before, s[1..]));
      SortCons(before, s[0], Filter(keep, s[1..]));
    }
  }

  /** Elements that tie with each other keep the order they came in. */
  lemma SortIsStable<T(!new)>(before: (T, T) -> bool, tied: T -> bool, s: seq<T>)
    requires TotalPreorder(before)
    requires forall x, y :: tied(x) && tied(y) ==> before(x, y)
    ensures Filter(tied, Sort(before, s)) == Filter(tied, s)
  {
    FilterSort(before, tied, s);
    FilterMembers(tied, s);
    SortOfTies(before, tied, Filter(tied, s));
  }

  lemma {:induction false} SortOfTies<T(!new)>(before: (T, T) -> bool, tied: T -> bool, s: seq<T>)
    requires forall x, y :: tied(x) && tied(y) ==> before(x, y)
    requires forall x :: x in s ==> tied(x)
    ensures Sort(before, s) == s
  {
    if s != [] {
      SortOfTies(before, tied, s[1..]);
      assert s == [s[0]] + s[1..];
    }
  }

  lemma SortedIsUnchanged<T(!new)>(before: (T, T) -> bool, s: seq<T>)
    requires Sorted(before, s)
    ensures Sort(before, s) == s
  {
  }

  /** When no two elements tie, the sorted list does not depend on the order they came in. */
  lemma {:induction false} SortedIsUnique<T>(before: (T, T) -> bool, s: seq<T>, t: seq<T>)
    requires Sorted(before, s) && Sorted(before, t) && multiset(s) == multiset(t)
    requires forall x, y :: x in s && y in s && before(x, y) && before(y, x) ==> x == y
    ensures s == t
  {
    assert |s| == |multiset(s)| == |t|;
    if s != [] {
      SameHead(before, s, t);
      SameTail(s, t);
      assert Sorted(before, s[1..]) && Sorted(before, t[1..]);
      SortedIsUnique(before, s[1..], t[1..]);
      assert s == [s[0]] + s[1..] && t == [t[0]] + t[1..];
    }
  }

  lemma SameTail<T>(s: seq<T>, t: seq<T>)
    requires s != [] && t != [] && s[0] == t[0] && multiset(s) == multiset(t)
    ensures multiset(s[1..]) == multiset(t[1..])
  {
    assert s == [s[0]] + s[1..] && t == [t[0]] + t[1..];
    assert multiset(s[1..]) == multiset(s) - multiset{s[0]};
    assert multiset(t[1..]) == multiset(t) - multiset{t[0]};
  }

  lemma SameHead<T>(before: (T, T) -> bool, s: seq<T>, t: seq<T>)
    requires s != [] && t != [] && Sorted(before, s) && Sorted(before, t) && multiset(s) == multiset(t)
    requires forall x, y :: x in s && y in s && before(x, y) && before(y, x) ==> x == y
    ensures s[0] == t[0]
  {
    assert s[0] in multiset(t) && t[0] in multiset(s);
    var i :| 0 <= i < |s| && s[i] == t[0];
    var j :| 0 <= j < |t| && t[j] == s[0];
    assert i > 0 ==> before(s[0], t[0]);
    assert j > 0 ==> before(t[0], s[0]);
  }

  lemma SortIgnoresInputOrder<T(!new)>(before: (T, T) -> bool, s: seq<T>, t: seq<T>)
    requires TotalPreorder(before) && multiset(s) == multiset(t)
    requires forall x, y :: x in s && y in s && before(x, y) && before(y, x) ==> x == y
    ensures Sort(before, s) == Sort(before, t)
  {
    SortIsSorted(before, s);
    SortIsSorted(before, t);
    SortMultiset(before, s);
    SortMultiset(before, t);
    SortMembers(before, s);
    SortedIsUnique(before, Sort(before, s), Sort(before, t));
  }
}
