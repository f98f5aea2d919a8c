/** The resolution loops of catalog.c over the depth counters, changed in place around every nested call. */
module CatalogStore {
  import opened Basics
  import opened CatalogText
  import opened CatalogUrn
  import opened CatalogGraph

  predicate AnyNext(list: seq<Entry>) {
    exists i :: 0 <= i < |list| && list[i].kind == NextCatalog
  }

  lemma {:induction false} ExactFrom(list: seq<Entry>, kind: Kind, id: string, i: nat)
    requires i <= |list| && FirstExact(list, kind, id) >= i
    ensures i < |list| && list[i].kind == kind && list[i].name == Some(id) ==> FirstExact(list, kind, id) == i
    ensures i < |list| && !(list[i].kind == kind && list[i].name == Some(id)) ==> FirstExact(list, kind, id) > i
  {
    FirstExactIsFirst(list, kind, id);
  }

  lemma {:induction false} NoNext(g: Graph, d: Depths, l: nat, i: nat, pub: Option<string>, sys: Option<string>)
    requires Ready(g, d, l) && i <= |g[l]| && !AnyNext(g[l])
    ensures TryNext(g, d, l, i, pub, sys) == Result(NotFound, d) && !StuckAt(g, d, l, i, pub, sys)
    decreases |g[l]| - i
  {
    if i < |g[l]| {
      assert g[l][i].kind != NextCatalog;
      NoNext(g, d, l, i + 1, pub, sys);
    }
  }

  lemma ResolveAboveLimit(g: Graph, d: Depths, l: nat, pub: Option<string>, sys: Option<string>)
    requires Ready(g, d, l) && d[l] > MAX_CATAL_DEPTH
    ensures Resolve(g, d, l, pub, sys) == Result(NotFound, d)
  {
  }

  /** The first loop of xmlCatalogXMLResolve: an exact match ends it, otherwise it has seen every rule. */
  method ScanSystem(list: seq<Entry>, sysID: string)
    returns (exact: nat, rewrite: Option<nat>, haveDelegate: nat, haveNext: nat)
    ensures exact == FirstExact(list, System, sysID)
    ensures exact == |list| ==> rewrite == BestRewrite(list, sysID)
    ensures exact == |list| ==> (haveDelegate > 0 <==> AnyDelegate(list, DelegateSystem, sysID))
    ensures exact == |list| ==> (haveNext > 0 <==> AnyNext(list))
  {
    rewrite, haveDelegate, haveNext := None, 0, 0;
    var lenrewrite, cur := 0, 0;
    while cur < |list|
      invariant 0 <= cur <= |list| && FirstExact(list, System, sysID) >= cur
      invariant rewrite == BestRewrite(list[..cur], sysID)
      invariant lenrewrite == if rewrite.Some? then |list[rewrite.value].name.value| else 0
      invariant haveDelegate > 0 <==> AnyDelegate(list[..cur], DelegateSystem, sysID)
      invariant haveNext > 0 <==> AnyNext(list[..cur])
    {
      var e := list[cur];
      ExactFrom(list, System, sysID, cur);
      assert list[..cur + 1] == list[..cur] + [e];
      if e.kind == System && e.name == Some(sysID) {
        return cur, rewrite, haveDelegate, haveNext;
      } else if e.kind == RewriteSystem {
        var len := if e.name.None? then 0 else |e.name.value|;
        if len > lenrewrite && Begins(sysID, e.name) {
          lenrewrite, rewrite := len, Some(cur);
        }
      } else if e.kind == DelegateSystem && Begins(sysID, e.name) {
        haveDelegate := haveDelegate + 1;
      } else if e.kind == NextCatalog {
        haveNext := haveNext + 1;
      }
      cur := cur + 1;
    }
    exact := cur;
    assert list[..cur] == list;
  }

  /** The second loop, for the public identifier; further catalogs are only counted if there is no system identifier. */
  method ScanPublic(list: seq<Entry>, pubID: string, countNext: bool)
    returns (exact: nat, haveDelegate: nat, haveNext: nat)
    ensures exact == FirstExact(list, Public, pubID)
    ensures exact == |list| ==> (haveDelegate > 0 <==> AnyDelegate(list, DelegatePublic, pubID))
    ensures exact == |list| ==> (haveNext > 0 <==> countNext && AnyNext(list))
  {
    haveDelegate, haveNext := 0, 0;
    var cur := 0;
    while cur < |list|
      invariant 0 <= cur <= |list| && FirstExact(list, Public, pubID) >= cur
      invariant haveDelegate > 0 <==> AnyDelegate(list[..cur], DelegatePublic, pubID)
      invariant haveNext > 0 <==> countNext && AnyNext(list[..cur])
    {
      var e := list[cur];
      ExactFrom(list, Public, pubID, cur);
      assert list[..cur + 1] == list[..cur] + [e];
      if e.kind == Public && e.name == Some(pubID) {
        return cur, haveDelegate, haveNext;
      } else if e.kind == DelegatePublic && Begins(pubID, e.name) && e.preferPublic {
        haveDelegate := haveDelegate + 1;
      } else if e.kind == NextCatalog && countNext {
        haveNext := haveNext + 1;
      }
      cur := cur + 1;
    }
    exact := cur;
    assert list[..cur] == list;
  }

  /** The loaded lists, and the counter kept with each of them */
  class Catalogs {
    const g: Graph
    const depth: array<nat>

    ghost predicate Valid()
      reads depth
    {
      Loaded(g) && depth.Length == |g| && Bounded(depth[..])
    }

    constructor (g: Graph)
      requires Loaded(g)
      ensures Valid() && this.g == g && fresh(depth) && forall i :: 0 <= i < depth.Length ==> depth[i] == 0
    {
      this.g := g;
      depth := new nat[|g|](_ => 0);
    }

    /** xmlCatalogXMLResolve */
    method XMLResolve(catal: nat, pubID: Option<string>, sysID: Option<string>) returns (ret: Answer)
      requires Valid() && catal < |g|
      modifies depth
      ensures Valid() && Result(ret, depth[..]) == Resolve(g, old(depth[..]), catal, pubID, sysID)
      decreases Budget(depth[..]), 0, 0, 0, 0
    {
      hide Resolve;
      if depth[catal] > MAX_CATAL_DEPTH {
        ResolveAboveLimit(g, depth[..], catal, pubID, sysID);
        return NotFound;
      }
      ghost var d := depth[..];
      depth[catal] := depth[catal] + 1;
      assert depth[..] == Enter(d, catal);
      var stuck;
      ret, stuck := Steps(catal, pubID, sysID, d);
      if !stuck {
        depth[catal] := depth[catal] - 1;
      }
    }

    /** What happens between the two changes of the counter; `stuck` is the exit that skips the second one. */
    method Steps(catal: nat, pubID: Option<string>, sysID: Option<string>, ghost d: Depths)
      returns (ret: Answer, stuck: bool)
      requires Valid() && catal < |g| && |d| == |g| && Bounded(d) && d[catal] <= MAX_CATAL_DEPTH
      requires depth[..] == Enter(d, catal)
      modifies depth
      ensures Valid() && Above(Enter(d, catal), depth[..])
      ensures Resolve(g, d, catal, pubID, sysID) == Result(ret, if stuck then depth[..] else Leave(depth[..], catal))
      decreases Budget(depth[..]), 4, 0, 0, 0
    {
      hide TryDelegates, TryNext, StuckAt, FirstExact, BestRewrite, AnyDelegate, AnyNext, Dup, Rewritten, Enter, Leave;
      var haveNext := 0;
      stuck := false;
      if sysID.Some? {
        var done;
        done, ret, haveNext := TrySystem(catal, sysID.value);
        if done {
          return;
        }
      }
      if pubID.Some? {
        var done, answer, more := TryPublic(catal, pubID.value, sysID.None?);
        if done {
          return answer, false;
        }
        haveNext := haveNext + more;
      }
      ret := NotFound;
      if haveNext > 0 {
        ret, stuck := ResolveNext(catal, pubID, sysID);
      } else if pubID.Some? || sysID.Some? {
        NoNext(g, depth[..], catal, 0, pubID, sysID);
      }
    }

    /** The steps for a system identifier; `done` if they settle the answer. */
    method TrySystem(catal: nat, sysID: string) returns (done: bool, ret: Answer, haveNext: nat)
      requires Valid() && catal < |g|
      modifies depth
      ensures Valid() && Above(old(depth[..]), depth[..])
      ensures DirectAnswer(g[catal], None, Some(sysID)).Some? ==>
        done && Some(ret) == DirectAnswer(g[catal], None, Some(sysID)) && depth[..] == old(depth[..])
      ensures DirectAnswer(g[catal], None, Some(sysID)).None? && AnyDelegate(g[catal], DelegateSystem, sysID) ==>
        done && Result(ret, depth[..]) == TryDelegates(g, old(depth[..]), catal, 0, DelegateSystem, sysID, [])
      ensures DirectAnswer(g[catal], None, Some(sysID)).None? && !AnyDelegate(g[catal], DelegateSystem, sysID) ==>
        !done && depth[..] == old(depth[..]) && (haveNext > 0 <==> AnyNext(g[catal]))
      decreases Budget(depth[..]), 3, |g[catal]|, 2, 0
    {
      hide TryDelegates, FirstExact, BestRewrite, AnyDelegate, AnyNext, Dup, Rewritten, Budget;
      var list := g[catal];
      var exact, rewrite, haveDelegate;
      exact, rewrite, haveDelegate, haveNext := ScanSystem(list, sysID);
      if exact < |list| {
        return true, Dup(list[exact].url), haveNext;
      }
      if rewrite.Some? {
        return true, Rewritten(list[rewrite.value], sysID), haveNext;
      }
      done, ret := haveDelegate > 0, NotFound;
      if done {
        ret := ResolveDelegates(catal, DelegateSystem, sysID);
      }
    }

    /** The steps for a public identifier */
    method TryPublic(catal: nat, pubID: string, countNext: bool) returns (done: bool, ret: Answer, haveNext: nat)
      requires Valid() && catal < |g|
      modifies depth
      ensures Valid() && Above(old(depth[..]), depth[..])
      ensures FirstExact(g[catal], Public, pubID) < |g[catal]| ==>
        done && ret == Dup(g[catal][FirstExact(g[catal], Public, pubID)].url) && depth[..] == old(depth[..])
      ensures FirstExact(g[catal], Public, pubID) == |g[catal]| && AnyDelegate(g[catal], DelegatePublic, pubID) ==>
        done && Result(ret, depth[..]) == TryDelegates(g, old(depth[..]), catal, 0, DelegatePublic, pubID, [])
      ensures FirstExact(g[catal], Public, pubID) == |g[catal]| && !AnyDelegate(g[catal], DelegatePublic, pubID) ==>
        !done && depth[..] == old(depth[..]) && (haveNext > 0 <==> countNext && AnyNext(g[catal]))
      decreases Budget(depth[..]), 3, |g[catal]|, 2, 0
    {
      hide TryDelegates, FirstExact, AnyDelegate, AnyNext, Dup, Budget;
      var list := g[catal];
      var exact, haveDelegate;
      exact, haveDelegate, haveNext := ScanPublic(list, pubID, countNext);
      if exact < |list| {
        return true, Dup(list[exact].url), haveNext;
      }
      done, ret := haveDelegate > 0, NotFound;
      if done {
        ret := ResolveDelegates(catal, DelegatePublic, pubID);
      }
    }

    /** The loop over the delegates: the URLs tried so far are kept in an array of fifty. */
    method ResolveDelegates(catal: nat, kind: Kind, id: string) returns (ret: Answer)
      requires Valid() && catal < |g|
      modifies depth
      ensures Valid() && Result(ret, depth[..]) == TryDelegates(g, old(depth[..]), catal, 0, kind, id, [])
      decreases Budget(depth[..]), 3, |g[catal]|, 1, 0
    {
      var delegates := new Option<string>[MAX_DELEGATE];
      var nbList, cur := 0, 0;
      var list := g[catal];
      while cur < |list|
        invariant Valid() && 0 <= cur <= |list| && 0 <= nbList <= MAX_DELEGATE
        invariant Above(old(depth[..]), depth[..])
        invariant TryDelegates(g, old(depth[..]), catal, 0, kind, id, [])
               == TryDelegates(g, depth[..], catal, cur, kind, id, delegates[..nbList])
      {
        var e := list[cur];
        if Delegates(e, kind, id) {
          var known := Among(delegates, nbList, e.url);
          if !known {
            ghost var tried := delegates[..nbList];
            if nbList < MAX_DELEGATE {
              delegates[nbList] := e.url;
              nbList := nbList + 1;
              assert delegates[..nbList] == tried + [e.url];
            }
            if e.children.Some? {
              BudgetFalls(old(depth[..]), depth[..]);
              ret := ListXMLResolve(e.children.value, if kind == DelegateSystem then None else Some(id),
                                    if kind == DelegateSystem then Some(id) else None);
              if ret != NotFound {
                return;
              }
            }
          }
        }
        cur := cur + 1;
      }
      return Cut;
    }

    /** The loop over the nextCatalog entries; `stuck` is the exit that leaves the counter as it is. */
    method ResolveNext(catal: nat, pubID: Option<string>, sysID: Option<string>) returns (ret: Answer, stuck: bool)
      requires Valid() && catal < |g|
      modifies depth
      ensures Valid() && Result(ret, depth[..]) == TryNext(g, old(depth[..]), catal, 0, pubID, sysID)
      ensures stuck == (ret == NotFound && StuckAt(g, old(depth[..]), catal, 0, pubID, sysID))
      decreases Budget(depth[..]), 3, |g[catal]|, 1, 0
    {
      var cur := 0;
      var list := g[catal];
      while cur < |list|
        invariant Valid() && 0 <= cur <= |list|
        invariant Above(old(depth[..]), depth[..])
        invariant TryNext(g, old(depth[..]), catal, 0, pubID, sysID) == TryNext(g, depth[..], catal, cur, pubID, sysID)
        invariant StuckAt(g, old(depth[..]), catal, 0, pubID, sysID) == StuckAt(g, depth[..], catal, cur, pubID, sysID)
      {
        var e := list[cur];
        if e.kind == NextCatalog && e.children.Some? {
          BudgetFalls(old(depth[..]), depth[..]);
          ret := ListXMLResolve(e.children.value, pubID, sysID);
          if ret != NotFound {
            return ret, false;
          } else if depth[catal] > MAX_CATAL_DEPTH {
            return NotFound, true;
          }
        }
        cur := cur + 1;
      }
      return NotFound, false;
    }

    /** xmlCatalogListXMLResolve */
    method ListXMLResolve(catal: nat, pubID: Option<string>, sysID: Option<string>) returns (ret: Answer)
      requires Valid() && catal < |g|
      modifies depth
      ensures Valid() && Result(ret, depth[..]) == ResolveList(g, old(depth[..]), catal, pubID, sysID)
      decreases Budget(depth[..]), 2, SysMeasure(sysID), PubMeasure(pubID), 0
    {
      if pubID.None? && sysID.None? {
        return NotFound;
      }
      var p := pubID;
      var normid := NormalizePublic(pubID);
      if normid.Some? {
        p := if normid.value != "" then normid else None;
      }
      assert p == NormPub(pubID);
      if p.Some? && IsUrn(p.value) {
        PubMeasureFalls(pubID);
        var urnID := UnWrapURN(p.value);
        ret := ListXMLResolve(catal, urnID, sysID);
        return;
      }
      if sysID.Some? && IsUrn(sysID.value) {
        SysMeasureFalls(sysID.value);
        var urnID := UnWrapURN(sysID.value);
        if p.None? {
          ret := ListXMLResolve(catal, urnID, None);
        } else if p == urnID {
          ret := ListXMLResolve(catal, p, None);
        } else {
          ret := ListXMLResolve(catal, p, urnID);
        }
        return;
      }
      ret := ResolveCatalogs(catal, p, sysID);
    }

    /** The loop over the catalogs of a list */
    method ResolveCatalogs(catal: nat, pubID: Option<string>, sysID: Option<string>) returns (ret: Answer)
      requires Valid() && catal < |g|
      modifies depth
      ensures Valid() && Result(ret, depth[..]) == TryCatalogs(g, old(depth[..]), catal, 0, pubID, sysID)
      decreases Budget(depth[..]), 1, 0, 0, 0
    {
      var cur := 0;
      var list := g[catal];
      while cur < |list|
        invariant Valid() && 0 <= cur <= |list|
        invariant Above(old(depth[..]), depth[..])
        invariant TryCatalogs(g, old(depth[..]), catal, 0, pubID, sysID)
               == TryCatalogs(g, depth[..], catal, cur, pubID, sysID)
      {
        var e := list[cur];
        if e.kind == Catalog && e.children.Some? {
          BudgetFalls(old(depth[..]), depth[..]);
          ret := XMLResolve(e.children.value, pubID, sysID);
          if ret != NotFound {
            return;
          } else if depth[e.children.value] > MAX_CATAL_DEPTH {
            return NotFound;
          }
        }
        cur := cur + 1;
      }
      return NotFound;
    }
  }

  method Among(delegates: array<Option<string>>, n: nat, url: Option<string>) returns (known: bool)
    requires n <= delegates.Length
    ensures known <==> url in delegates[..n]
  {
    for i := 0 to n
      invariant url !in delegates[..i]
    {
      if delegates[i] == url {
        return true;
      }
    }
    return false;
  }
}
