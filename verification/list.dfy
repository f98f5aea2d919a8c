/** The circular doubly linked list of list.c: a sentinel and one link per element, changed in place. */
module LinkedList {
  import opened ListSpec

  class Link<D> {
    var next: Link<D>
    var prev: Link<D>
    var data: D

    constructor (d: D)
      ensures data == d && next == this && prev == this
    {
      data, next, prev := d, this, this;
    }
  }

  ghost predicate Distinct<D>(r: seq<Link<D>>) {
    forall i, j :: 0 <= i < j < |r| ==> r[i] != r[j]
  }

  /** Inside `r`, next leads one step forwards and prev one step backwards. */
  ghost predicate Linked<D>(r: seq<Link<D>>)
    reads r
  {
    && (forall i {:trigger r[i].next} :: 0 <= i < |r| - 1 ==> r[i].next == r[i + 1])
    && (forall i {:trigger r[i].prev} :: 0 < i < |r| ==> r[i].prev == r[i - 1])
  }

  /** `r` is a ring: r[0] is the sentinel, and the two ends are joined. */
  ghost predicate IsRing<D>(r: seq<Link<D>>)
    reads r
  {
    r != [] && Distinct(r) && Linked(r) && r[|r| - 1].next == r[0] && r[0].prev == r[|r| - 1]
  }

  ghost predicate Holds<D>(r: seq<Link<D>>, s: seq<D>)
    reads r
  {
    |r| == |s| + 1 && forall i {:trigger s[i]} :: 0 <= i < |s| ==> r[i + 1].data == s[i]
  }

  lemma HoldsInsert<D>(r: seq<Link<D>>, s: seq<D>, k: nat, n: Link<D>)
    requires Holds(r, s) && k <= |s|
    ensures Holds(InsertAt(r, k + 1, n), InsertAt(s, k, n.data))
  {
    var r', s' := InsertAt(r, k + 1, n), InsertAt(s, k, n.data);
    forall i | 0 <= i < |s'|
      ensures r'[i + 1].data == s'[i]
    {
      if i < k {
        assert r[i + 1].data == s[i];
      } else if i > k {
        assert r[i].data == s[i - 1];
      }
    }
  }

  class List<D(0, !new)> {
    var sentinel: Link<D>
    const linkCompare: Compare<D>

    ghost var ring: seq<Link<D>>   // the sentinel, then the links in order
    ghost var contents: seq<D>     // the stored data in order
    ghost var Repr: set<object>

    ghost predicate Valid()
      reads this, Repr
    {
      && this in Repr
      && (forall l :: l in ring ==> l in Repr)
      && IsRing(ring) && ring[0] == sentinel && Holds(ring, contents)
    }

    /** xmlListCreate */
    constructor (compare: Compare<D>)
      ensures Valid() && contents == [] && linkCompare == compare
      ensures fresh(Repr)
    {
      var d: D := *;
      var s := new Link(d);
      sentinel, linkCompare, ring, contents := s, compare, [s], [];
      Repr := {this, s};
    }

    /** xmlListLowerSearch */
    method LowerSearch(data: D) returns (lk: Link<D>)
      requires Valid()
      ensures var k := Lower(linkCompare, contents, data);
              lk == if k < |contents| then ring[k + 1] else sentinel
    {
      lk := sentinel.next;
      ghost var k := 0;
      while lk != sentinel && linkCompare(lk.data, data) < 0
        invariant 0 <= k <= |contents|
        invariant lk == if k < |contents| then ring[k + 1] else sentinel
        invariant Lower(linkCompare, contents, data) == k + Lower(linkCompare, contents[k..], data)
        decreases |contents| - k
      {
        lk := lk.next;
        k := k + 1;
      }
    }

    /** xmlListHigherSearch */
    method HigherSearch(data: D) returns (lk: Link<D>)
      requires Valid()
      ensures lk == ring[Higher(linkCompare, contents, data)]
    {
      hide Higher;
      lk := sentinel.prev;
      ghost var k := |contents|;
      HigherStep(linkCompare, contents, data, k);
      while lk != sentinel && linkCompare(lk.data, data) > 0
        invariant 0 <= k <= |contents| && lk == ring[k]
        invariant Higher(linkCompare, contents, data) == Higher(linkCompare, contents[..k], data)
        decreases k
      {
        HigherStep(linkCompare, contents, data, k);
        lk := lk.prev;
        k := k - 1;
      }
      HigherStep(linkCompare, contents, data, k);
    }

    /** The relinking shared by every insertion: a new link goes right behind `place`. */
    method LinkBehind(place: Link<D>, data: D, ghost k: nat)
      requires Valid() && k <= |contents| && place == ring[k]
      modifies Repr
      ensures Valid() && contents == InsertAt(old(contents), k, data)
      ensures ring == InsertAt(old(ring), k + 1, ring[k + 1]) && sentinel == old(sentinel)
      ensures fresh(Repr - old(Repr))
    {
      var lkNew := new Link(data);
      Join(place, lkNew, ring, k);
      assert Holds(ring, contents);
      HoldsInsert(ring, contents, k, lkNew);
      ring := InsertAt(ring, k + 1, lkNew);
      contents := InsertAt(contents, k, data);
      Repr := Repr + {lkNew};
    }

    static method Join(place: Link<D>, lkNew: Link<D>, ghost r: seq<Link<D>>, ghost k: nat)
      requires IsRing(r) && k < |r| && place == r[k] && lkNew !in r
      modifies r`next, r`prev, lkNew`next, lkNew`prev
      ensures IsRing(InsertAt(r, k + 1, lkNew))
    {
      lkNew.next := place.next;
      place.next.prev := lkNew;
      place.next := lkNew;
      lkNew.prev := place;
      ghost var r' := InsertAt(r, k + 1, lkNew);
      assert |r'| == |r| + 1 && r'[k + 1] == lkNew;
      assert forall i :: 0 <= i <= k ==> r'[i] == r[i];
      assert forall i :: k + 1 < i < |r'| ==> r'[i] == r[i - 1];
      assert r'[0].prev == r'[|r'| - 1] && r'[|r'| - 1].next == r'[0];
      forall i | 0 <= i < |r'| - 1
        ensures r'[i].next == r'[i + 1] && r'[i + 1].prev == r'[i]
      {
        if i < k {
          assert old(r[i].next) == r[i + 1];
        } else if i > k + 1 {
          assert old(r[i - 1].next) == r[i];
        }
      }
    }

    /** xmlListInsert */
    method Insert(data: D)
      requires Valid()
      modifies Repr
      ensures Valid() && contents == InsertFirst(linkCompare, old(contents), data)
      ensures sentinel == old(sentinel) && fresh(Repr - old(Repr))
    {
      var lkPlace := LowerSearch(data);
      ghost var k := Lower(linkCompare, contents, data);
      lkPlace := lkPlace.prev;
      assert lkPlace == ring[k];
      LinkBehind(lkPlace, data, k);
    }

    /** xmlListAppend */
    method Append(data: D)
      requires Valid()
      modifies Repr
      ensures Valid() && contents == InsertLast(linkCompare, old(contents), data)
      ensures sentinel == old(sentinel) && fresh(Repr - old(Repr))
    {
      var lkPlace := HigherSearch(data);
      LinkBehind(lkPlace, data, Higher(linkCompare, contents, data));
    }

    /** xmlListPushFront */
    method PushFront(data: D)
      requires Valid()
      modifies Repr
      ensures Valid() && contents == [data] + old(contents) && fresh(Repr - old(Repr))
    {
      LinkBehind(sentinel, data, 0);
      assert contents == [data] + old(contents);
    }

    /** xmlListPushBack */
    method PushBack(data: D)
      requires Valid()
      modifies Repr
      ensures Valid() && contents == old(contents) + [data] && fresh(Repr - old(Repr))
    {
      LinkBehind(sentinel.prev, data, |contents|);
      assert contents == old(contents) + [data];
    }

    /** xmlLinkDeallocator, for a list without its own deallocator: the link drops out of the ring. */
    method Unlink(lk: Link<D>, ghost k: nat)
      requires Valid() && k < |contents| && lk == ring[k + 1]
      modifies Repr
      ensures Valid() && contents == RemoveAt(old(contents), k) && ring == RemoveAt(old(ring), k + 1)
      ensures sentinel == old(sentinel) && Repr == old(Repr)
    {
      Part(lk, ring, k + 1);
      assert Holds(ring, contents);
      HoldsRemove(ring, contents, k);
      ring := RemoveAt(ring, k + 1);
      contents := RemoveAt(contents, k);
    }

    static method Part(lk: Link<D>, ghost r: seq<Link<D>>, ghost k: nat)
      requires IsRing(r) && 0 < k < |r| && lk == r[k]
      modifies r`next, r`prev
      ensures IsRing(RemoveAt(r, k))
    {
      lk.prev.next := lk.next;
      lk.next.prev := lk.prev;
      ghost var r' := RemoveAt(r, k);
      forall i | 0 <= i < |r'| - 1
        ensures r'[i].next == r'[i + 1] && r'[i + 1].prev == r'[i]
      {
        if i < k - 1 {
          assert old(r[i].next) == r[i + 1];
        } else if i >= k {
          assert old(r[i + 1].next) == r[i + 2];
        }
      }
    }

    /** xmlListRemoveFirst */
    method RemoveFirst(data: D) returns (found: bool)
      requires Valid()
      modifies Repr
      ensures Valid() && found == FindsFirst(linkCompare, old(contents), data)
      ensures contents == if found then RemoveAt(old(contents), Lower(linkCompare, old(contents), data))
                          else old(contents)
      ensures sentinel == old(sentinel) && Repr == old(Repr)
    {
      var lk := LowerSearch(data);
      if lk == sentinel {
        return false;
      }
      if linkCompare(lk.data, data) != 0 {
        return false;
      }
      Unlink(lk, Lower(linkCompare, contents, data));
      return true;
    }

    /** xmlListRemoveLast */
    method RemoveLast(data: D) returns (found: bool)
      requires Valid()
      modifies Repr
      ensures Valid() && found == FindsLast(linkCompare, old(contents), data)
      ensures contents == if found then RemoveAt(old(contents), Higher(linkCompare, old(contents), data) - 1)
                          else old(contents)
      ensures sentinel == old(sentinel) && Repr == old(Repr)
    {
      var lk := HigherSearch(data);
      if lk == sentinel {
        return false;
      }
      if linkCompare(lk.data, data) != 0 {
        return false;
      }
      Unlink(lk, Higher(linkCompare, contents, data) - 1);
      return true;
    }

    /** xmlListRemoveAll */
    method RemoveAllOf(data: D) returns (count: nat)
      requires Valid()
      modifies Repr
      ensures Valid() && contents == RemoveAll(linkCompare, old(contents), data)
      ensures count == |old(contents)| - |contents|
      ensures TotalPreorder(linkCompare) && Sorted(linkCompare, old(contents)) ==>
        contents == Others(linkCompare, old(contents), data) &&
        count == |Class(linkCompare, old(contents), data)|
      ensures sentinel == old(sentinel) && Repr == old(Repr)
    {
      count := 0;
      var found := RemoveFirst(data);
      while found
        invariant Valid() && sentinel == old(sentinel) && Repr == old(Repr)
        invariant count == |old(contents)| - |contents| - (if found then 1 else 0)
        invariant RemoveAll(linkCompare, old(contents), data) == RemoveAll(linkCompare, contents, data)
        invariant !found ==> !FindsFirst(linkCompare, contents, data)
        decreases |contents|, found
      {
        count := count + 1;
        found := RemoveFirst(data);
      }
      if TotalPreorder(linkCompare) && Sorted(linkCompare, old(contents)) {
        RemoveAllIsExact(linkCompare, old(contents), data);
      }
    }

    /** xmlListClear */
    method Clear()
      requires Valid()
      modifies Repr
      ensures Valid() && contents == [] && sentinel == old(sentinel)
      ensures Repr == old(Repr)
    {
      var lk := sentinel.next;
      while lk != sentinel
        invariant Valid() && sentinel == old(sentinel) && Repr == old(Repr)
        invariant lk == if contents == [] then sentinel else ring[1]
        decreases |contents|
      {
        var next := lk.next;
        Unlink(lk, 0);
        lk := next;
      }
    }

    /** xmlListEmpty */
    method Empty() returns (empty: bool)
      requires Valid()
      ensures empty <==> contents == []
    {
      empty := sentinel.next == sentinel;
      assert contents != [] ==> ring[0].next == ring[1];
    }

    /** xmlListSize */
    method Size() returns (count: nat)
      requires Valid()
      ensures count == |contents|
    {
      var lk := sentinel.next;
      count := 0;
      while lk != sentinel
        invariant count <= |contents|
        invariant lk == if count < |contents| then ring[count + 1] else sentinel
        decreases |contents| - count
      {
        lk := lk.next;
        count := count + 1;
      }
    }

    /** xmlListPopFront */
    method PopFront()
      requires Valid()
      modifies Repr
      ensures Valid() && contents == if old(contents) == [] then [] else old(contents)[1..]
    {
      var empty := Empty();
      if !empty {
        Unlink(sentinel.next, 0);
      }
    }

    /** xmlListPopBack */
    method PopBack()
      requires Valid()
      modifies Repr
      ensures Valid() && contents == if old(contents) == [] then [] else old(contents)[..|old(contents)| - 1]
    {
      var empty := Empty();
      if !empty {
        Unlink(sentinel.prev, |contents| - 1);
      }
    }

    /** xmlListCopy: walk `from` and insert each datum here. */
    method Copy(from: List<D>)
      requires Valid() && from.Valid() && Repr !! from.Repr
      modifies Repr
      ensures Valid() && contents == InsertAll(linkCompare, old(contents), from.contents)
      ensures sentinel == old(sentinel) && fresh(Repr - old(Repr))
    {
      from.Successors();
      assert this in Repr && from in from.Repr;
      hide List.Valid, InsertFirst, IsRing, Holds;
      var lk := from.sentinel.next;
      ghost var k := 0;
      while lk != from.sentinel
        invariant Valid() && from.Valid() && sentinel == old(sentinel)
        invariant fresh(Repr - old(Repr)) && Repr !! from.Repr
        invariant 0 <= k <= |from.contents| && lk == from.Place(k)
        invariant InsertAll(linkCompare, old(contents), from.contents)
               == InsertAll(linkCompare, contents, from.contents[k..])
        decreases |from.contents| - k
      {
        from.Successors();
        Insert(lk.data);
        from.Successors();
        lk := lk.next;
        k := k + 1;
      }
    }

    /** The link of element `k`, or the sentinel behind the last one */
    ghost function Place(k: nat): Link<D>
      requires Valid() && k <= |contents|
      reads this, Repr
    {
      if k < |contents| then ring[k + 1] else sentinel
    }

    lemma Successors()
      requires Valid()
      ensures sentinel.next == Place(0)
      ensures forall k :: 0 <= k < |contents| ==>
        Place(k) in Repr && Place(k) != sentinel && Place(k).data == contents[k] && Place(k).next == Place(k + 1)
    {
      assert |ring| == |contents| + 1;
      forall k | 0 <= k < |contents|
        ensures Place(k) in Repr && Place(k) != sentinel && Place(k).data == contents[k] && Place(k).next == Place(k + 1)
      {
        assert ring[k + 1] != ring[0] && contents[k] == ring[k + 1].data;
        assert k + 2 < |ring| ==> ring[k + 1].next == ring[k + 2];
      }
    }

    /** xmlListDup */
    method Dup() returns (cur: List<D>)
      requires Valid()
      ensures cur.Valid() && fresh(cur.Repr)
      ensures cur.linkCompare == linkCompare && cur.contents == InsertAll(linkCompare, [], contents)
    {
      cur := new List(linkCompare);
      cur.Copy(this);
    }

    /** xmlListMerge */
    method Merge(other: List<D>)
      requires Valid() && other.Valid() && Repr !! other.Repr
      modifies Repr, other.Repr
      ensures Valid() && contents == InsertAll(linkCompare, old(contents), old(other.contents))
      ensures other.Valid() && other.contents == [] && other.Repr == old(other.Repr)
      ensures sentinel == old(sentinel) && fresh(Repr - old(Repr))
      ensures TotalPreorder(linkCompare) && Sorted(linkCompare, old(contents)) ==>
        Sorted(linkCompare, contents) && multiset(contents) == old(multiset(contents) + multiset(other.contents))
    {
      Copy(other);
      other.Clear();
      if TotalPreorder(linkCompare) && Sorted(linkCompare, old(contents)) {
        CopyPassOrders(linkCompare, old(contents), old(other.contents));
      }
    }

    /** xmlListSort: copy out in order, clear, and copy back in order. */
    method Sort()
      requires Valid()
      modifies Repr
      ensures Valid() && contents == SortTwice(linkCompare, old(contents))
      ensures TotalPreorder(linkCompare) ==>
        Sorted(linkCompare, contents) && multiset(contents) == multiset(old(contents)) &&
        SameRuns(linkCompare, contents, old(contents))
      ensures sentinel == old(sentinel) && fresh(Repr - old(Repr))
    {
      ghost var s := contents;
      SortAlways(s);
      hide TotalPreorder, Sorted, SameRuns, InsertAll;
      var empty := Empty();
      if !empty {
        var lTemp := Dup();
        Clear();
        Merge(lTemp);
      }
    }

    lemma SortAlways(s: seq<D>)
      ensures TotalPreorder(linkCompare) ==>
        Sorted(linkCompare, SortTwice(linkCompare, s)) && multiset(SortTwice(linkCompare, s)) == multiset(s) &&
        SameRuns(linkCompare, SortTwice(linkCompare, s), s)
      ensures SortTwice(linkCompare, []) == []
    {
      if TotalPreorder(linkCompare) {
        SortIsStable(linkCompare, s);
      }
    }

    /** xmlListReverse: one pass that swaps the two links of every node, the sentinel included. */
    method ReverseInPlace()
      requires Valid()
      modifies Repr
      ensures Valid() && sentinel == old(sentinel) && contents == Reverse(old(contents))
      ensures ring == [sentinel] + Reverse(old(ring)[1..]) && Repr == old(Repr)
    {
      ghost var r := ring;
      var lkPrev := sentinel;
      var lk := sentinel.next;
      ghost var m := 1;
      while lk != sentinel
        invariant 1 <= m <= |r| && ring == r && Repr == old(Repr) && sentinel == r[0] && contents == old(contents)
        invariant lkPrev == r[m - 1] && lk == if m < |r| then r[m] else r[0]
        invariant Swapped(r, m - 1) && Untouched(r, m - 1) && Holds(r, contents)
        decreases |r| - m
      {
        Turn(lkPrev, lk, r, m - 1);
        lkPrev := lk;
        lk := lk.next;
        m := m + 1;
      }
      Turn(lkPrev, lk, r, m - 1);
      TurnedRound(r);
      HoldsReversed(r, contents);
      ring := [r[0]] + Reverse(r[1..]);
      contents := Reverse(contents);
    }

    /** Exchanges the two pointers of one link, given its successor. */
    static method Turn(lkPrev: Link<D>, lk: Link<D>, ghost r: seq<Link<D>>, ghost m: nat)
      requires m < |r| && Distinct(r) && Swapped(r, m) && Untouched(r, m)
      requires lkPrev == r[m] && lk == if m + 1 < |r| then r[m + 1] else r[0]
      modifies lkPrev`next, lkPrev`prev
      ensures Swapped(r, m + 1) && Untouched(r, m + 1)
    {
      lkPrev.next := lkPrev.prev;
      lkPrev.prev := lk;
    }
  }

  lemma HoldsRemove<D>(r: seq<Link<D>>, s: seq<D>, k: nat)
    requires Holds(r, s) && k < |s|
    ensures Holds(RemoveAt(r, k + 1), RemoveAt(s, k))
  {
    var r', s' := RemoveAt(r, k + 1), RemoveAt(s, k);
    forall i | 0 <= i < |s'|
      ensures r'[i + 1].data == s'[i]
    {
      if i < k {
        assert r[i + 1].data == s[i];
      } else {
        assert r[i + 2].data == s[i + 1];
      }
    }
  }

  // ---- reversal ----

  /** The first `m` links of the former ring `r` have their two pointers exchanged. */
  ghost predicate Swapped<D>(r: seq<Link<D>>, m: nat)
    requires m <= |r|
    reads r
  {
    forall i {:trigger r[i].next} {:trigger r[i].prev} :: 0 <= i < m ==>
      r[i].next == (if i == 0 then r[|r| - 1] else r[i - 1]) &&
      r[i].prev == (if i == |r| - 1 then r[0] else r[i + 1])
  }

  ghost predicate Untouched<D>(r: seq<Link<D>>, m: nat)
    requires m <= |r|
    reads r
  {
    forall i {:trigger r[i].next} {:trigger r[i].prev} :: m <= i < |r| ==>
      r[i].prev == (if i == 0 then r[|r| - 1] else r[i - 1]) &&
      r[i].next == (if i == |r| - 1 then r[0] else r[i + 1])
  }

  lemma TurnedRound<D>(r: seq<Link<D>>)
    requires r != [] && Distinct(r) && Swapped(r, |r|)
    ensures IsRing([r[0]] + Reverse(r[1..]))
  {
    var r' := [r[0]] + Reverse(r[1..]);
    forall i | 0 < i < |r|
      ensures r'[i] == r[|r| - i]
    {
    }
    forall i | 0 <= i < |r'| - 1
      ensures r'[i].next == r'[i + 1] && r'[i + 1].prev == r'[i]
    {
    }
  }

  lemma HoldsReversed<D>(r: seq<Link<D>>, s: seq<D>)
    requires Holds(r, s)
    ensures Holds([r[0]] + Reverse(r[1..]), Reverse(s))
  {
    var r' := [r[0]] + Reverse(r[1..]);
    forall i | 0 <= i < |s|
      ensures r'[i + 1].data == Reverse(s)[i]
    {
      assert r[|s| - i].data == s[|s| - 1 - i];
    }
  }

  /** Reversing twice gives back the same ring of links, so every pointer is as it was. */
  lemma ReverseRingTwice<D>(r: seq<Link<D>>)
    requires r != []
    ensures var once := [r[0]] + Reverse(r[1..]); [once[0]] + Reverse(once[1..]) == r
  {
    ReverseTwice(r[1..]);
    assert ([r[0]] + Reverse(r[1..]))[1..] == Reverse(r[1..]);
  }
}
