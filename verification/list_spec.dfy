/** What the operations of list.c do to the sequence of stored data, and what that amounts to. */
module ListSpec {

  type Compare<!D> = (D, D) -> int

  /** Swapping the arguments of the comparator mirrors the sign of its answer. */
  ghost predicate Mirrors<D>(cmp: Compare<D>, a: D, b: D) {
    cmp(a, b) <= 0 <==> cmp(b, a) >= 0
  }

  ghost predicate Chains<D>(cmp: Compare<D>, a: D, b: D, c: D) {
    cmp(a, b) <= 0 && cmp(b, c) <= 0 ==> cmp(a, c) <= 0
  }

  /** What the search functions expect of a comparator: a total preorder read off the sign. */
  ghost predicate TotalPreorder<D(!new)>(cmp: Compare<D>) {
    && (forall a, b :: Mirrors(cmp, a, b))
    && (forall a, b, c :: Chains(cmp, a, b, c))
  }

  ghost predicate Sorted<D>(cmp: Compare<D>, s: seq<D>) {
    forall i, j {:trigger cmp(s[i], s[j])} :: 0 <= i < j < |s| ==> cmp(s[i], s[j]) <= 0
  }

  /** Where a walk from the front stops: at the first element not below `d`. */
  function Lower<D>(cmp: Compare<D>, s: seq<D>, d: D): (k: nat)
    ensures k <= |s|
    ensures forall i :: 0 <= i < k ==> cmp(s[i], d) < 0
    ensures k < |s| ==> cmp(s[k], d) >= 0
  {
    if s == [] || cmp(s[0], d) >= 0 then 0 else 1 + Lower(cmp, s[1..], d)
  }

  /** How many elements remain in front of the place where a walk from the back stops. */
  function Higher<D>(cmp: Compare<D>, s: seq<D>, d: D): (k: nat)
    ensures k <= |s|
    ensures forall i :: k <= i < |s| ==> cmp(s[i], d) > 0
    ensures k > 0 ==> cmp(s[k - 1], d) <= 0
  {
    if s == [] || cmp(s[|s| - 1], d) <= 0 then |s| else Higher(cmp, s[..|s| - 1], d)
  }

  /** One step of the walk from the back */
  lemma HigherStep<D>(cmp: Compare<D>, s: seq<D>, d: D, k: nat)
    requires k <= |s|
    ensures Higher(cmp, s[..k], d) == if k == 0 || cmp(s[k - 1], d) <= 0 then k else Higher(cmp, s[..k - 1], d)
    ensures s[..|s|] == s
  {
    assert k > 0 ==> s[..k][..k - 1] == s[..k - 1];
  }

  function InsertAt<D>(s: seq<D>, k: nat, d: D): seq<D>
    requires k <= |s|
  {
    s[..k] + [d] + s[k..]
  }

  function RemoveAt<D>(s: seq<D>, k: nat): seq<D>
    requires k < |s|
  {
    s[..k] + s[k + 1..]
  }

  function InsertFirst<D>(cmp: Compare<D>, s: seq<D>, d: D): seq<D> {
    InsertAt(s, Lower(cmp, s, d), d)
  }

  function InsertLast<D>(cmp: Compare<D>, s: seq<D>, d: D): seq<D> {
    InsertAt(s, Higher(cmp, s, d), d)
  }

  predicate FindsFirst<D>(cmp: Compare<D>, s: seq<D>, d: D) {
    var k := Lower(cmp, s, d);
    k < |s| && cmp(s[k], d) == 0
  }

  predicate FindsLast<D>(cmp: Compare<D>, s: seq<D>, d: D) {
    var k := Higher(cmp, s, d);
    k > 0 && cmp(s[k - 1], d) == 0
  }

  /** Removing the first match again and again until the search fails. */
  function RemoveAll<D>(cmp: Compare<D>, s: seq<D>, d: D): seq<D>
    decreases |s|
  {
    if FindsFirst(cmp, s, d) then RemoveAll(cmp, RemoveAt(s, Lower(cmp, s, d)), d) else s
  }

  /** Inserting the elements of `s` one by one, each before its equals. */
  function InsertAll<D>(cmp: Compare<D>, acc: seq<D>, s: seq<D>): seq<D>
    decreases |s|
  {
    if s == [] then acc else InsertAll(cmp, InsertFirst(cmp, acc, s[0]), s[1..])
  }

  /** Sorting: one copy into a scratch list and one copy back. */
  function SortTwice<D>(cmp: Compare<D>, s: seq<D>): seq<D> {
    InsertAll(cmp, [], InsertAll(cmp, [], s))
  }

  function Only<D>(cmp: Compare<D>, d: D, x: D): seq<D> {
    if cmp(d, x) == 0 then [d] else []
  }

  /** The elements equal to `x`, in order. */
  function Class<D>(cmp: Compare<D>, s: seq<D>, x: D): seq<D> {
    if s == [] then [] else Only(cmp, s[0], x) + Class(cmp, s[1..], x)
  }

  /** The elements not equal to `x`, in order. */
  function Others<D>(cmp: Compare<D>, s: seq<D>, x: D): seq<D> {
    if s == [] then []
    else (if cmp(s[0], x) == 0 then [] else [s[0]]) + Others(cmp, s[1..], x)
  }

  function Reverse<D>(s: seq<D>): (r: seq<D>)
    ensures |r| == |s|
    ensures forall i :: 0 <= i < |s| ==> r[i] == s[|s| - 1 - i]
  {
    if s == [] then [] else Reverse(s[1..]) + [s[0]]
  }

  // ---- facts about the pieces ----

  lemma {:induction false} ReverseTwice<D>(s: seq<D>)
    ensures Reverse(Reverse(s)) == s
  {
  }

  lemma {:induction false} ClassConcat<D>(cmp: Compare<D>, a: seq<D>, b: seq<D>, x: D)
    ensures Class(cmp, a + b, x) == Class(cmp, a, x) + Class(cmp, b, x)
  {
    if a == [] {
      assert a + b == b;
    } else {
      assert (a + b)[1..] == a[1..] + b;
      ClassConcat(cmp, a[1..], b, x);
    }
  }

  lemma {:induction false} OthersConcat<D>(cmp: Compare<D>, a: seq<D>, b: seq<D>, x: D)
    ensures Others(cmp, a + b, x) == Others(cmp, a, x) + Others(cmp, b, x)
  {
    if a == [] {
      assert a + b == b;
    } else {
      assert (a + b)[1..] == a[1..] + b;
      OthersConcat(cmp, a[1..], b, x);
    }
  }

  lemma {:induction false} NoneEqual<D>(cmp: Compare<D>, s: seq<D>, x: D)
    requires forall i :: 0 <= i < |s| ==> cmp(s[i], x) != 0
    ensures Class(cmp, s, x) == [] && Others(cmp, s, x) == s
  {
    if s != [] {
      NoneEqual(cmp, s[1..], x);
    }
  }

  // ---- ordered insertion ----

  /** Both insertions keep the order and add exactly the new element. */
  lemma InsertKeepsOrder<D(!new)>(cmp: Compare<D>, s: seq<D>, d: D)
    requires TotalPreorder(cmp) && Sorted(cmp, s)
    ensures Sorted(cmp, InsertFirst(cmp, s, d)) && Sorted(cmp, InsertLast(cmp, s, d))
    ensures multiset(InsertFirst(cmp, s, d)) == multiset(s) + multiset{d}
    ensures multiset(InsertLast(cmp, s, d)) == multiset(s) + multiset{d}
  {
    InsertBetween(cmp, s, Lower(cmp, s, d), d);
    InsertBetween(cmp, s, Higher(cmp, s, d), d);
    InsertAdds(s, Lower(cmp, s, d), d);
    InsertAdds(s, Higher(cmp, s, d), d);
  }

  lemma InsertAdds<D>(s: seq<D>, k: nat, d: D)
    requires k <= |s|
    ensures multiset(InsertAt(s, k, d)) == multiset(s) + multiset{d}
  {
    assert s == s[..k] + s[k..];
  }

  lemma InsertBetween<D(!new)>(cmp: Compare<D>, s: seq<D>, k: nat, d: D)
    requires TotalPreorder(cmp) && Sorted(cmp, s) && k <= |s|
    requires k > 0 ==> cmp(s[k - 1], d) <= 0
    requires k < |s| ==> cmp(s[k], d) >= 0
    ensures Sorted(cmp, InsertAt(s, k, d))
  {
    var r := InsertAt(s, k, d);
    forall i, j | 0 <= i < j < |r|
      ensures cmp(r[i], r[j]) <= 0
    {
      if i == k {
        FromHead(cmp, s, k, d, j - 1);
      } else if j == k {
        ToLast(cmp, s, k - 1, d, i);
      } else {
        assert cmp(s[if i < k then i else i - 1], s[if j < k then j else j - 1]) <= 0;
      }
    }
  }

  lemma FromHead<D(!new)>(cmp: Compare<D>, s: seq<D>, k: nat, d: D, i: nat)
    requires TotalPreorder(cmp) && Sorted(cmp, s) && k <= i < |s|
    requires cmp(s[k], d) >= 0
    ensures cmp(d, s[i]) <= 0
    ensures cmp(s[k], d) > 0 ==> cmp(s[i], d) > 0
  {
    assert Mirrors(cmp, d, s[k]) && Mirrors(cmp, s[k], d) && Mirrors(cmp, s[i], d);
    if k < i {
      assert cmp(s[k], s[i]) <= 0;
      assert Chains(cmp, d, s[k], s[i]) && Chains(cmp, s[k], s[i], d);
    }
  }

  lemma ToLast<D(!new)>(cmp: Compare<D>, s: seq<D>, k: nat, d: D, i: nat)
    requires TotalPreorder(cmp) && Sorted(cmp, s) && i <= k < |s|
    requires cmp(s[k], d) <= 0
    ensures cmp(s[i], d) <= 0
    ensures cmp(s[k], d) < 0 ==> cmp(s[i], d) < 0
  {
    assert Mirrors(cmp, d, s[k]) && Mirrors(cmp, d, s[i]) && Mirrors(cmp, s[i], d);
    if i < k {
      assert cmp(s[i], s[k]) <= 0;
      assert Chains(cmp, s[i], s[k], d) && Chains(cmp, d, s[i], s[k]);
    }
  }

  /** On an ordered list the new element goes in front of all its equals. */
  lemma InsertFirstPlace<D(!new)>(cmp: Compare<D>, s: seq<D>, d: D, x: D)
    requires TotalPreorder(cmp) && Sorted(cmp, s)
    ensures Class(cmp, InsertFirst(cmp, s, d), x) == Only(cmp, d, x) + Class(cmp, s, x)
  {
    var a, b := s[..Lower(cmp, s, d)], s[Lower(cmp, s, d)..];
    assert a + b == s;
    if cmp(d, x) == 0 {
      StrictlyApart(cmp, a, d, x);
    }
    ClassAround(cmp, a, d, b, x);
    Swap(Class(cmp, a, x), Only(cmp, d, x), Class(cmp, b, x));
  }

  /** On an ordered list the appended element goes behind all its equals. */
  lemma InsertLastPlace<D(!new)>(cmp: Compare<D>, s: seq<D>, d: D, x: D)
    requires TotalPreorder(cmp) && Sorted(cmp, s)
    ensures Class(cmp, InsertLast(cmp, s, d), x) == Class(cmp, s, x) + Only(cmp, d, x)
  {
    var a, b := s[..Higher(cmp, s, d)], s[Higher(cmp, s, d)..];
    assert a + b == s;
    if cmp(d, x) == 0 {
      StrictlyApart(cmp, b, d, x);
    }
    ClassAround(cmp, a, d, b, x);
    Swap(Class(cmp, a, x), Only(cmp, d, x), Class(cmp, b, x));
  }

  lemma Swap<D>(a: seq<D>, o: seq<D>, b: seq<D>)
    ensures a == [] || o == [] ==> a + o + b == o + (a + b)
    ensures b == [] || o == [] ==> a + o + b == (a + b) + o
  {
  }

  lemma StrictlyApart<D(!new)>(cmp: Compare<D>, s: seq<D>, d: D, x: D)
    requires TotalPreorder(cmp) && cmp(d, x) == 0
    requires forall i :: 0 <= i < |s| ==> cmp(s[i], d) != 0
    ensures Class(cmp, s, x) == []
  {
    forall i | 0 <= i < |s|
      ensures cmp(s[i], x) != 0
    {
      assert Mirrors(cmp, x, d) && Mirrors(cmp, d, x) && Mirrors(cmp, s[i], x) && Mirrors(cmp, x, s[i]);
      assert Mirrors(cmp, s[i], d) && Mirrors(cmp, d, s[i]);
      assert Chains(cmp, s[i], x, d) && Chains(cmp, d, x, s[i]);
    }
    NoneEqual(cmp, s, x);
  }

  lemma ClassAround<D>(cmp: Compare<D>, a: seq<D>, d: D, b: seq<D>, x: D)
    ensures Class(cmp, a + [d] + b, x) == Class(cmp, a, x) + Only(cmp, d, x) + Class(cmp, b, x)
    ensures Class(cmp, a + b, x) == Class(cmp, a, x) + Class(cmp, b, x)
  {
    ClassConcat(cmp, a + [d], b, x);
    ClassConcat(cmp, a, [d], x);
    ClassConcat(cmp, a, b, x);
  }

  // ---- copying, merging and sorting ----

  /** One copy pass orders the data and adds exactly the elements copied. */
  lemma {:induction false} CopyPassOrders<D(!new)>(cmp: Compare<D>, acc: seq<D>, s: seq<D>)
    requires TotalPreorder(cmp) && Sorted(cmp, acc)
    ensures Sorted(cmp, InsertAll(cmp, acc, s))
    ensures multiset(InsertAll(cmp, acc, s)) == multiset(acc) + multiset(s)
    decreases |s|
  {
    if s != [] {
      InsertKeepsOrder(cmp, acc, s[0]);
      CopyPassOrders(cmp, InsertFirst(cmp, acc, s[0]), s[1..]);
      assert s == [s[0]] + s[1..];
    }
  }

  /** One copy pass turns every run of equals round. */
  lemma {:induction false} CopyPassReversesRuns<D(!new)>(cmp: Compare<D>, acc: seq<D>, s: seq<D>, x: D)
    requires TotalPreorder(cmp) && Sorted(cmp, acc)
    ensures Class(cmp, InsertAll(cmp, acc, s), x) == Reverse(Class(cmp, s, x)) + Class(cmp, acc, x)
    decreases |s|
  {
    if s != [] {
      InsertKeepsOrder(cmp, acc, s[0]);
      InsertFirstPlace(cmp, acc, s[0], x);
      CopyPassReversesRuns(cmp, InsertFirst(cmp, acc, s[0]), s[1..], x);
      ReverseCons(s[0], Class(cmp, s[1..], x));
    }
  }

  lemma ReverseCons<D>(d: D, s: seq<D>)
    ensures Reverse([d] + s) == Reverse(s) + [d] && Reverse([] + s) == Reverse(s)
  {
    assert ([d] + s)[1..] == s && [] + s == s;
  }

  /** Sorting is ordered, a permutation, and keeps equal elements in their order. */
  lemma SortIsStable<D(!new)>(cmp: Compare<D>, s: seq<D>)
    requires TotalPreorder(cmp)
    ensures Sorted(cmp, SortTwice(cmp, s))
    ensures multiset(SortTwice(cmp, s)) == multiset(s)
    ensures forall x :: Class(cmp, SortTwice(cmp, s), x) == Class(cmp, s, x)
  {
    var once := InsertAll(cmp, [], s);
    CopyPassOrders(cmp, [], s);
    CopyPassOrders(cmp, [], once);
    forall x
      ensures Class(cmp, SortTwice(cmp, s), x) == Class(cmp, s, x)
    {
      CopyPassReversesRuns(cmp, [], s, x);
      CopyPassReversesRuns(cmp, [], once, x);
      ReverseTwice(Class(cmp, s, x));
    }
  }

  ghost predicate SameRuns<D(!new)>(cmp: Compare<D>, a: seq<D>, b: seq<D>) {
    forall x :: Class(cmp, a, x) == Class(cmp, b, x)
  }

  /** An ordered sequence is determined by its runs of equals. */
  lemma {:induction false} OrderedByRuns<D(!new)>(cmp: Compare<D>, a: seq<D>, b: seq<D>)
    requires TotalPreorder(cmp) && Sorted(cmp, a) && Sorted(cmp, b) && SameRuns(cmp, a, b)
    ensures a == b
    decreases |a|
  {
    if a == [] {
      if b != [] {
        HeadsAgree(cmp, b, a);
      }
    } else {
      HeadsAgree(cmp, a, b);
      forall x
        ensures Class(cmp, a[1..], x) == Class(cmp, b[1..], x)
      {
        assert Class(cmp, a, x) == Class(cmp, b, x);
        var n := if cmp(a[0], x) == 0 then 1 else 0;
        assert Class(cmp, a[1..], x) == Class(cmp, a, x)[n..];
        assert Class(cmp, b[1..], x) == Class(cmp, b, x)[n..];
      }
      OrderedByRuns(cmp, a[1..], b[1..]);
      assert a == [a[0]] + a[1..] && b == [b[0]] + b[1..];
    }
  }

  lemma HeadsAgree<D(!new)>(cmp: Compare<D>, a: seq<D>, b: seq<D>)
    requires TotalPreorder(cmp) && Sorted(cmp, a) && Sorted(cmp, b) && SameRuns(cmp, a, b)
    requires a != []
    ensures b != [] && a[0] == b[0]
  {
    HeadRun(cmp, a);
    var i := ClassMember(cmp, b, a[0]);
    HeadRun(cmp, b);
    var j := ClassMember(cmp, a, b[0]);
    FromHead(cmp, a, 0, a[0], j);
    FromHead(cmp, b, 0, b[0], i);
    assert Mirrors(cmp, a[0], b[0]) && Mirrors(cmp, b[0], a[0]);
    assert Mirrors(cmp, b[i], a[0]) && Mirrors(cmp, a[j], b[0]);
    assert Chains(cmp, b[0], b[i], a[0]) && Chains(cmp, a[0], a[j], b[0]);
    assert Class(cmp, b, a[0])[0] == b[0];
  }

  lemma HeadRun<D(!new)>(cmp: Compare<D>, a: seq<D>)
    requires TotalPreorder(cmp) && a != []
    ensures cmp(a[0], a[0]) == 0
    ensures Class(cmp, a, a[0]) != [] && Class(cmp, a, a[0])[0] == a[0]
  {
    assert Mirrors(cmp, a[0], a[0]);
  }

  lemma {:induction false} ClassMember<D>(cmp: Compare<D>, s: seq<D>, x: D) returns (i: nat)
    requires Class(cmp, s, x) != []
    ensures i < |s| && cmp(s[i], x) == 0
  {
    if cmp(s[0], x) == 0 {
      i := 0;
    } else {
      i := ClassMember(cmp, s[1..], x);
      i := i + 1;
    }
  }

  /** So sorting gives the one ordered arrangement that keeps every run of equals as it was. */
  lemma SortIsTheStableSort<D(!new)>(cmp: Compare<D>, s: seq<D>, t: seq<D>)
    requires TotalPreorder(cmp)
    ensures t == SortTwice(cmp, s) <==> Sorted(cmp, t) && SameRuns(cmp, t, s)
  {
    SortIsStable(cmp, s);
    if Sorted(cmp, t) && SameRuns(cmp, t, s) {
      OrderedByRuns(cmp, t, SortTwice(cmp, s));
    }
  }

  ghost predicate RunsReadBothWays<D(!new)>(cmp: Compare<D>, s: seq<D>) {
    forall x :: Class(cmp, s, x) == Reverse(Class(cmp, s, x))
  }

  /** Duplicating is a single pass, so the duplicate equals the list only for an ordered list whose runs read the
      same both ways. */
  lemma DupIsACopyExactlyWhen<D(!new)>(cmp: Compare<D>, s: seq<D>)
    requires TotalPreorder(cmp)
    ensures InsertAll(cmp, [], s) == s <==> Sorted(cmp, s) && RunsReadBothWays(cmp, s)
  {
    var once := InsertAll(cmp, [], s);
    CopyPassOrders(cmp, [], s);
    forall x
      ensures Class(cmp, once, x) == Reverse(Class(cmp, s, x))
    {
      CopyPassReversesRuns(cmp, [], s, x);
      assert Class(cmp, [], x) == [];
    }
    if Sorted(cmp, s) && RunsReadBothWays(cmp, s) {
      forall x
        ensures Class(cmp, s, x) == Class(cmp, once, x)
      {
        assert Class(cmp, s, x) == Reverse(Class(cmp, s, x));
      }
      OrderedByRuns(cmp, s, once);
    }
  }

  /** Two different elements that compare equal change places. */
  lemma DupTurnsEqualsRound<D>(cmp: Compare<D>, a: D, b: D)
    requires cmp(a, b) >= 0
    ensures InsertAll(cmp, [], [a, b]) == [b, a]
  {
    assert [a, b][1..] == [b] && [b][1..] == [];
    assert InsertFirst(cmp, [], a) == [a];
    assert InsertFirst(cmp, [a], b) == [b, a];
    assert InsertAll(cmp, [], [a, b]) == InsertAll(cmp, [a], [b]) == InsertAll(cmp, [b, a], []);
  }

  /** For example pairs that are compared by their first halves */
  lemma DupIsNotACopy()
    ensures InsertAll((x: (int, int), y: (int, int)) => x.0 - y.0, [], [(0, 1), (0, 2)]) == [(0, 2), (0, 1)]
  {
    DupTurnsEqualsRound((x: (int, int), y: (int, int)) => x.0 - y.0, (0, 1), (0, 2));
  }

  // ---- removal ----

  /** A walk from the front of an ordered list finds the first equal element, if there is one. */
  lemma SearchFirstIsExact<D(!new)>(cmp: Compare<D>, s: seq<D>, d: D)
    requires TotalPreorder(cmp) && Sorted(cmp, s)
    ensures FindsFirst(cmp, s, d) <==> Class(cmp, s, d) != []
    ensures FindsFirst(cmp, s, d) ==> Class(cmp, s[..Lower(cmp, s, d)], d) == []
  {
    var a, b := s[..Lower(cmp, s, d)], s[Lower(cmp, s, d)..];
    assert a + b == s;
    NoneEqual(cmp, a, d);
    ClassConcat(cmp, a, b, d);
    if b != [] && cmp(b[0], d) != 0 {
      AllAbove(cmp, s, |a|, d);
      NoneEqual(cmp, b, d);
    }
  }

  lemma AllAbove<D(!new)>(cmp: Compare<D>, s: seq<D>, k: nat, d: D)
    requires TotalPreorder(cmp) && Sorted(cmp, s) && k < |s| && cmp(s[k], d) > 0
    ensures forall i :: 0 <= i < |s[k..]| ==> cmp(s[k..][i], d) != 0
  {
    forall i | 0 <= i < |s[k..]|
      ensures cmp(s[k..][i], d) != 0
    {
      FromHead(cmp, s, k, d, k + i);
    }
  }

  /** A walk from the back of an ordered list finds the last equal element, if there is one. */
  lemma {:induction false} SearchLastIsExact<D(!new)>(cmp: Compare<D>, s: seq<D>, d: D)
    requires TotalPreorder(cmp) && Sorted(cmp, s)
    ensures FindsLast(cmp, s, d) <==> Class(cmp, s, d) != []
    ensures FindsLast(cmp, s, d) ==> Class(cmp, s[Higher(cmp, s, d)..], d) == []
  {
    var a, b := s[..Higher(cmp, s, d)], s[Higher(cmp, s, d)..];
    assert a + b == s;
    NoneEqual(cmp, b, d);
    ClassConcat(cmp, a, b, d);
    if a != [] && cmp(a[|a| - 1], d) != 0 {
      AllBelow(cmp, s, |a|, d);
      NoneEqual(cmp, a, d);
    } else if a != [] {
      EndsInClass(cmp, a, d);
    }
  }

  lemma AllBelow<D(!new)>(cmp: Compare<D>, s: seq<D>, k: nat, d: D)
    requires TotalPreorder(cmp) && Sorted(cmp, s) && 0 < k <= |s| && cmp(s[k - 1], d) < 0
    ensures forall i :: 0 <= i < |s[..k]| ==> cmp(s[..k][i], d) != 0
  {
    forall i | 0 <= i < |s[..k]|
      ensures cmp(s[..k][i], d) != 0
    {
      ToLast(cmp, s, k - 1, d, i);
    }
  }

  lemma EndsInClass<D>(cmp: Compare<D>, s: seq<D>, d: D)
    requires s != [] && cmp(s[|s| - 1], d) == 0
    ensures Class(cmp, s, d) != []
  {
    var n := |s| - 1;
    assert s == s[..n] + [s[n]];
    ClassConcat(cmp, s[..n], [s[n]], d);
  }

  /** On an ordered list, removing until the search fails drops every equal and nothing else. */
  lemma {:induction false} RemoveAllIsExact<D(!new)>(cmp: Compare<D>, s: seq<D>, d: D)
    requires TotalPreorder(cmp) && Sorted(cmp, s)
    ensures RemoveAll(cmp, s, d) == Others(cmp, s, d)
    ensures |s| - |RemoveAll(cmp, s, d)| == |Class(cmp, s, d)|
    decreases |s|
  {
    SearchFirstIsExact(cmp, s, d);
    if FindsFirst(cmp, s, d) {
      var k := Lower(cmp, s, d);
      RemoveOne(cmp, s[..k], s[k], s[k + 1..], d);
      assert s == s[..k] + [s[k]] + s[k + 1..];
      SortedWithout(cmp, s, k);
      RemoveAllIsExact(cmp, RemoveAt(s, k), d);
    } else {
      NoneLeft(cmp, s, d);
    }
  }

  lemma SortedWithout<D>(cmp: Compare<D>, s: seq<D>, k: nat)
    requires Sorted(cmp, s) && k < |s|
    ensures Sorted(cmp, RemoveAt(s, k))
  {
    var r := RemoveAt(s, k);
    forall i, j | 0 <= i < j < |r|
      ensures cmp(r[i], r[j]) <= 0
    {
      var i', j' := if i < k then i else i + 1, if j < k then j else j + 1;
      assert r[i] == s[i'] && r[j] == s[j'];
    }
  }

  lemma RemoveOne<D>(cmp: Compare<D>, a: seq<D>, e: D, b: seq<D>, d: D)
    requires cmp(e, d) == 0
    ensures Others(cmp, a + [e] + b, d) == Others(cmp, a + b, d)
    ensures |Class(cmp, a + [e] + b, d)| == |Class(cmp, a + b, d)| + 1
  {
    ClassAround(cmp, a, e, b, d);
    OthersAround(cmp, a, e, b, d);
  }

  lemma OthersAround<D>(cmp: Compare<D>, a: seq<D>, e: D, b: seq<D>, d: D)
    requires cmp(e, d) == 0
    ensures Others(cmp, a + [e] + b, d) == Others(cmp, a + b, d)
  {
    OthersConcat(cmp, a + [e], b, d);
    OthersConcat(cmp, a, [e], d);
    OthersConcat(cmp, a, b, d);
  }

  lemma {:induction false} NoneLeft<D>(cmp: Compare<D>, s: seq<D>, d: D)
    requires Class(cmp, s, d) == []
    ensures Others(cmp, s, d) == s
  {
    if s != [] {
      NoneLeft(cmp, s[1..], d);
    }
  }
}
