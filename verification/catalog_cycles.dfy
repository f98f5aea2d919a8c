/** What cycles of catalogs do to the depth counters of catalog.c. */
module CatalogCycles {
  import opened Basics
  import opened CatalogText
  import opened CatalogUrn
  import opened CatalogGraph
  import opened CatalogPrecedence
  import opened CatalogIdentifiers

  // ---- cycles ----

  /** Entry `i` of the list `l` names a further catalog, and entry `j` of that is the list `m`. */
  ghost predicate LeadsBy(g: Graph, l: nat, i: nat, j: nat, m: nat) {
    && l < |g| && i < |g[l]| && g[l][i].kind == NextCatalog && g[l][i].children.Some?
    && var c := g[l][i].children.value;
       c < |g| && j < |g[c]| && g[c][j].kind == Catalog && g[c][j].children == Some(m)
  }

  ghost predicate Leads(g: Graph, l: nat, m: nat) {
    exists i: nat, j: nat :: LeadsBy(g, l, i, j, m)
  }

  ghost predicate Walk(g: Graph, p: seq<nat>) {
    p != [] && forall k :: 0 < k < |p| ==> Leads(g, p[k - 1], p[k])
  }

  /** A walk from `l` that comes back to a list it has passed */
  ghost predicate Lasso(g: Graph, l: nat, p: seq<nat>) {
    Walk(g, p) && p[0] == l && p[|p| - 1] in p[..|p| - 1]
  }

  /** From `l` the further catalogs lead into a cycle. */
  ghost predicate ReachesCycle(g: Graph, l: nat) {
    exists p :: Lasso(g, l, p)
  }

  /** Every list of the set leads to another one of it. */
  ghost predicate Closed(g: Graph, s: set<nat>) {
    forall l :: l in s ==> exists m :: m in s && Leads(g, l, m)
  }

  lemma LassoIsClosed(g: Graph, l: nat, p: seq<nat>) returns (s: set<nat>)
    requires Lasso(g, l, p)
    ensures l in s && Closed(g, s)
  {
    s := set x | x in p;
    var last := |p| - 1;
    forall x | x in s ensures exists m :: m in s && Leads(g, x, m) {
      var k :| 0 <= k < |p| && p[k] == x;
      if k == last {
        k :| 0 <= k < last && p[..last][k] == x;
      }
      assert Leads(g, p[k + 1 - 1], p[k + 1]) && p[k + 1] in s;
    }
  }

  // ---- lookups that find nothing ----

  predicate Matches(e: Entry, ids: Ids) {
    || (ids.sys.Some? && ((e.kind == System && e.name == ids.sys) || Rewrites(e, ids.sys.value)
                          || Delegates(e, DelegateSystem, ids.sys.value)))
    || (ids.pub.Some? && ((e.kind == Public && e.name == ids.pub) || Delegates(e, DelegatePublic, ids.pub.value)))
  }

  /** No entry of any list has anything to say about the identifiers. */
  ghost predicate Unmatched(g: Graph, ids: Ids) {
    forall l, i :: 0 <= l < |g| && 0 <= i < |g[l]| ==> !Matches(g[l][i], ids)
  }

  /** Identifiers that are passed on as they are, see CatalogPrecedence.Prepare */
  ghost predicate Plain(ids: Ids) {
    && ids != Ids(None, None) && NormPub(ids.pub) == ids.pub
    && (ids.pub.Some? ==> !IsUrn(ids.pub.value)) && (ids.sys.Some? ==> !IsUrn(ids.sys.value))
  }

  /** Some counter has gone beyond the limit. */
  ghost predicate Filled(d: Depths, d': Depths) {
    |d| == |d'| && exists z :: 0 <= z < |d| && d[z] <= MAX_CATAL_DEPTH < d'[z]
  }

  ghost predicate Within(d: Depths) {
    forall z :: 0 <= z < |d| ==> d[z] <= MAX_CATAL_DEPTH
  }

  lemma FillsOn(d: Depths, d1: Depths, d2: Depths)
    requires Above(d, d1) && Above(d1, d2)
    ensures Filled(d, d1) || Filled(d1, d2) ==> Filled(d, d2)
    ensures d2 == d ==> d1 == d
  {
  }

  /** Only the further catalogs are asked. */
  lemma NothingHere(g: Graph, l: nat, ids: Ids)
    requires Unmatched(g, ids) && l < |g|
    ensures DirectAnswer(g[l], ids.pub, ids.sys) == None
    ensures ids.sys.Some? ==> !AnyDelegate(g[l], DelegateSystem, ids.sys.value)
    ensures ids.pub.Some? ==> !AnyDelegate(g[l], DelegatePublic, ids.pub.value)
    ensures ids.pub.Some? ==> FirstExact(g[l], Public, ids.pub.value) == |g[l]|
  {
    assert forall i :: 0 <= i < |g[l]| ==> !Matches(g[l][i], ids);
    if ids.sys.Some? {
      FirstExactIsFirst(g[l], System, ids.sys.value);
      BestRewriteIsBest(g[l], ids.sys.value);
    }
    if ids.pub.Some? {
      FirstExactIsFirst(g[l], Public, ids.pub.value);
    }
  }

  lemma ResolveAsksNext(g: Graph, d: Depths, l: nat, ids: Ids)
    requires Ready(g, d, l) && Plain(ids) && Unmatched(g, ids) && d[l] <= MAX_CATAL_DEPTH
    ensures var d1 := Enter(d, l);
      var r := TryNext(g, d1, l, 0, ids.pub, ids.sys);
      Resolve(g, d, l, ids.pub, ids.sys) ==
        if r.answer == NotFound && StuckAt(g, d1, l, 0, ids.pub, ids.sys) then r
        else Result(r.answer, Leave(r.depths, l))
  {
    NothingHere(g, l, ids);
    hide DirectAnswer, AnyDelegate, FirstExact, TryDelegates, TryNext, StuckAt;
  }

  lemma ListAsksCatalogs(g: Graph, d: Depths, c: nat, ids: Ids)
    requires Ready(g, d, c) && Plain(ids)
    ensures ResolveList(g, d, c, ids.pub, ids.sys) == TryCatalogs(g, d, c, 0, ids.pub, ids.sys)
  {
    hide TryCatalogs;
  }

  /** A lookup that finds nothing leaves the counters as they were, or takes one of them beyond the limit. */
  lemma {:induction false} ResolveFillsOrRestores(g: Graph, d: Depths, l: nat, ids: Ids)
    requires Ready(g, d, l) && Plain(ids) && Unmatched(g, ids)
    ensures var r := Resolve(g, d, l, ids.pub, ids.sys); r.answer == NotFound && (r.depths == d || Filled(d, r.depths))
    decreases Budget(d), 0, 0
  {
    if d[l] <= MAX_CATAL_DEPTH {
      var d1 := Enter(d, l);
      ResolveAsksNext(g, d, l, ids);
      NextFillsOrRestores(g, d1, l, 0, ids);
      hide Resolve, TryNext, StuckAt;
      var r := TryNext(g, d1, l, 0, ids.pub, ids.sys);
      if Filled(d1, r.depths) {
        var z :| 0 <= z < |d1| && d1[z] <= MAX_CATAL_DEPTH < r.depths[z];
        assert d[z] <= MAX_CATAL_DEPTH;
        assert z != l ==> Leave(r.depths, l)[z] == r.depths[z];
      } else {
        assert Leave(d1, l) == d;
      }
    }
  }

  lemma {:induction false} NextFillsOrRestores(g: Graph, d: Depths, l: nat, i: nat, ids: Ids)
    requires Ready(g, d, l) && Plain(ids) && Unmatched(g, ids) && i <= |g[l]|
    ensures var r := TryNext(g, d, l, i, ids.pub, ids.sys); r.answer == NotFound && (r.depths == d || Filled(d, r.depths))
    ensures var r := TryNext(g, d, l, i, ids.pub, ids.sys);
      if StuckAt(g, d, l, i, ids.pub, ids.sys) then r.depths[l] > MAX_CATAL_DEPTH
      else r.depths == d || r.depths[l] <= MAX_CATAL_DEPTH
    decreases Budget(d), 2, |g[l]| - i
  {
    if i < |g[l]| {
      if g[l][i].kind != NextCatalog || g[l][i].children.None? {
        NextFillsOrRestores(g, d, l, i + 1, ids);
      } else {
        var c := g[l][i].children.value;
        ListAsksCatalogs(g, d, c, ids);
        CatalogsFillOrRestore(g, d, c, 0, ids);
        var r := TryCatalogs(g, d, c, 0, ids.pub, ids.sys);
        if r.depths[l] <= MAX_CATAL_DEPTH {
          BudgetFalls(d, r.depths);
          NextFillsOrRestores(g, r.depths, l, i + 1, ids);
          FillsOn(d, r.depths, TryNext(g, r.depths, l, i + 1, ids.pub, ids.sys).depths);
        }
      }
    }
  }

  lemma {:induction false} CatalogsFillOrRestore(g: Graph, d: Depths, c: nat, i: nat, ids: Ids)
    requires Ready(g, d, c) && Plain(ids) && Unmatched(g, ids) && i <= |g[c]|
    ensures var r := TryCatalogs(g, d, c, i, ids.pub, ids.sys);
      r.answer == NotFound && (r.depths == d || Filled(d, r.depths))
    decreases Budget(d), 1, |g[c]| - i
  {
    if i < |g[c]| {
      if g[c][i].kind != Catalog || g[c][i].children.None? {
        CatalogsFillOrRestore(g, d, c, i + 1, ids);
      } else {
        var l := g[c][i].children.value;
        ResolveFillsOrRestores(g, d, l, ids);
        var r := Resolve(g, d, l, ids.pub, ids.sys);
        if r.depths[l] <= MAX_CATAL_DEPTH {
          BudgetFalls(d, r.depths);
          CatalogsFillOrRestore(g, r.depths, c, i + 1, ids);
          FillsOn(d, r.depths, TryCatalogs(g, r.depths, c, i + 1, ids.pub, ids.sys).depths);
        }
      }
    }
  }

  // ---- without a cycle the counters return ----

  /** The counters while the lists of the walk `p` are being resolved */
  ghost predicate Along(d: Depths, p: seq<nat>) {
    Within(d) && forall z :: 0 <= z < |d| && z !in p ==> d[z] < MAX_CATAL_DEPTH
  }

  lemma {:induction false} NoCycleRestores(g: Graph, d: Depths, p: seq<nat>, l: nat, ids: Ids)
    requires Ready(g, d, l) && Plain(ids) && Unmatched(g, ids)
    requires Walk(g, p + [l]) && !ReachesCycle(g, (p + [l])[0]) && Along(d, p)
    ensures Resolve(g, d, l, ids.pub, ids.sys) == Result(NotFound, d)
    decreases Budget(d), 0, 0
  {
    var d1, q := Enter(d, l), p + [l];
    assert l !in p by {
      assert q[..|q| - 1] == p;
      assert !Lasso(g, q[0], q);
    }
    assert Along(d1, q);
    NextRestores(g, d1, q, l, 0, ids);
    ResolveAsksNext(g, d, l, ids);
    assert Leave(d1, l) == d;
  }

  lemma {:induction false} NextRestores(g: Graph, d: Depths, p: seq<nat>, l: nat, i: nat, ids: Ids)
    requires Ready(g, d, l) && Plain(ids) && Unmatched(g, ids) && i <= |g[l]|
    requires Walk(g, p) && p[|p| - 1] == l && !ReachesCycle(g, p[0]) && Along(d, p)
    ensures TryNext(g, d, l, i, ids.pub, ids.sys) == Result(NotFound, d) && !StuckAt(g, d, l, i, ids.pub, ids.sys)
    decreases Budget(d), 2, |g[l]| - i
  {
    if i < |g[l]| {
      NextRestores(g, d, p, l, i + 1, ids);
      if g[l][i].kind == NextCatalog && g[l][i].children.Some? {
        ListAsksCatalogs(g, d, g[l][i].children.value, ids);
        CatalogsRestore(g, d, p, l, i, 0, ids);
      }
    }
  }

  lemma {:induction false} CatalogsRestore(g: Graph, d: Depths, p: seq<nat>, l: nat, i: nat, j: nat, ids: Ids)
    requires Ready(g, d, l) && Plain(ids) && Unmatched(g, ids)
    requires Walk(g, p) && p[|p| - 1] == l && !ReachesCycle(g, p[0]) && Along(d, p)
    requires i < |g[l]| && g[l][i].kind == NextCatalog && g[l][i].children.Some? && j <= |g[g[l][i].children.value]|
    ensures TryCatalogs(g, d, g[l][i].children.value, j, ids.pub, ids.sys) == Result(NotFound, d)
    decreases Budget(d), 1, |g[g[l][i].children.value]| - j
  {
    var c := g[l][i].children.value;
    if j < |g[c]| {
      CatalogsRestore(g, d, p, l, i, j + 1, ids);
      if g[c][j].kind == Catalog && g[c][j].children.Some? {
        var m := g[c][j].children.value;
        assert LeadsBy(g, l, i, j, m);
        assert Leads(g, l, m);
        assert Walk(g, p + [m]);
        NoCycleRestores(g, d, p, m, ids);
      }
    }
  }

  // ---- a lookup that restores the counters has not met a cycle ----

  /** If all restore them, each further catalog asked has restored them, and the own counter is not beyond the limit. */
  lemma {:induction false} NextHasRestored(g: Graph, d: Depths, l: nat, k: nat, i: nat, ids: Ids)
    requires Ready(g, d, l) && Plain(ids) && Unmatched(g, ids) && k <= i < |g[l]|
    requires g[l][i].kind == NextCatalog && g[l][i].children.Some?
    requires TryNext(g, d, l, k, ids.pub, ids.sys).depths == d && !StuckAt(g, d, l, k, ids.pub, ids.sys)
    ensures TryCatalogs(g, d, g[l][i].children.value, 0, ids.pub, ids.sys).depths == d && d[l] <= MAX_CATAL_DEPTH
    decreases i - k
  {
    if g[l][k].kind == NextCatalog && g[l][k].children.Some? {
      var c := g[l][k].children.value;
      ListAsksCatalogs(g, d, c, ids);
      CatalogsFillOrRestore(g, d, c, 0, ids);
      var r := TryCatalogs(g, d, c, 0, ids.pub, ids.sys);
      if r.depths[l] <= MAX_CATAL_DEPTH {
        FillsOn(d, r.depths, TryNext(g, r.depths, l, k + 1, ids.pub, ids.sys).depths);
      }
    }
    if k < i {
      NextHasRestored(g, d, l, k + 1, i, ids);
    }
  }

  lemma {:induction false} CatalogHasRestored(g: Graph, d: Depths, c: nat, k: nat, j: nat, ids: Ids)
    requires Ready(g, d, c) && Plain(ids) && Unmatched(g, ids) && k <= j < |g[c]| && Within(d)
    requires g[c][j].kind == Catalog && g[c][j].children.Some?
    requires TryCatalogs(g, d, c, k, ids.pub, ids.sys).depths == d
    ensures Resolve(g, d, g[c][j].children.value, ids.pub, ids.sys).depths == d
    decreases j - k
  {
    if g[c][k].kind == Catalog && g[c][k].children.Some? {
      var l := g[c][k].children.value;
      ResolveFillsOrRestores(g, d, l, ids);
      var r := Resolve(g, d, l, ids.pub, ids.sys);
      if r.depths[l] <= MAX_CATAL_DEPTH {
        FillsOn(d, r.depths, TryCatalogs(g, r.depths, c, k + 1, ids.pub, ids.sys).depths);
      }
    }
    if k < j {
      CatalogHasRestored(g, d, c, k + 1, j, ids);
    }
  }

  /** Inside a cycle nothing restores them: the walk round it would raise a counter for ever. */
  lemma {:induction false} CycleLeaks(g: Graph, d: Depths, s: set<nat>, l: nat, ids: Ids)
    requires Ready(g, d, l) && Plain(ids) && Unmatched(g, ids) && Within(d) && Closed(g, s) && l in s
    ensures Resolve(g, d, l, ids.pub, ids.sys).depths != d
    decreases Budget(d)
  {
    hide Resolve;
    if Resolve(g, d, l, ids.pub, ids.sys).depths == d {
      var m :| m in s && Leads(g, l, m);
      RestoresFurther(g, d, l, m, ids);
      CycleLeaks(g, Enter(d, l), s, m, ids);
      assert false;
    }
  }

  /** A lookup that restores the counters has made lookups that did. */
  lemma RestoresFurther(g: Graph, d: Depths, l: nat, m: nat, ids: Ids)
    requires Ready(g, d, l) && Plain(ids) && Unmatched(g, ids) && Within(d) && Leads(g, l, m)
    requires Resolve(g, d, l, ids.pub, ids.sys).depths == d
    ensures m < |g| && Within(Enter(d, l))
    ensures Resolve(g, Enter(d, l), m, ids.pub, ids.sys).depths == Enter(d, l)
  {
    EnterRestored(g, d, l, ids);
    hide Resolve, TryNext, TryCatalogs, StuckAt, Matches;
    var i: nat, j: nat :| LeadsBy(g, l, i, j, m);
    var d1 := Enter(d, l);
    NextHasRestored(g, d1, l, 0, i, ids);
    CatalogHasRestored(g, d1, g[l][i].children.value, 0, j, ids);
  }

  lemma EnterRestored(g: Graph, d: Depths, l: nat, ids: Ids)
    requires Ready(g, d, l) && Plain(ids) && Unmatched(g, ids) && Within(d)
    requires Resolve(g, d, l, ids.pub, ids.sys).depths == d
    ensures var d1 := Enter(d, l);
      TryNext(g, d1, l, 0, ids.pub, ids.sys).depths == d1 && !StuckAt(g, d1, l, 0, ids.pub, ids.sys)
  {
    var d1 := Enter(d, l);
    ResolveAsksNext(g, d, l, ids);
    NextFillsOrRestores(g, d1, l, 0, ids);
    hide Resolve, TryNext, StuckAt;
    var r := TryNext(g, d1, l, 0, ids.pub, ids.sys);
    assert r.depths[l] >= d1[l] == d[l] + 1;
    assert Leave(r.depths, l) == d ==> r.depths == d[l := r.depths[l]];
  }

  // ---- the condition ----

  /** A lookup that no entry matches brings every counter back exactly when no cycle of further catalogs is reachable. */
  lemma CountersReturnExactlyWhen(g: Graph, d: Depths, l: nat, ids: Ids)
    requires Ready(g, d, l) && Plain(ids) && Unmatched(g, ids) && forall z :: 0 <= z < |d| ==> d[z] < MAX_CATAL_DEPTH
    ensures Resolve(g, d, l, ids.pub, ids.sys).depths == d <==> !ReachesCycle(g, l)
    ensures Resolve(g, d, l, ids.pub, ids.sys).answer == NotFound
  {
    ResolveFillsOrRestores(g, d, l, ids);
    if ReachesCycle(g, l) {
      var p :| Lasso(g, l, p);
      var s := LassoIsClosed(g, l, p);
      CycleLeaks(g, d, s, l, ids);
    } else {
      assert [] + [l] == [l];
      NoCycleRestores(g, d, [], l, ids);
    }
  }

  /** And if one is, some list is beyond the limit afterwards and answers nothing any more, whatever it is asked. */
  lemma CycleSilencesSomeCatalog(g: Graph, d: Depths, l: nat, ids: Ids)
    requires Ready(g, d, l) && Plain(ids) && Unmatched(g, ids) && forall z :: 0 <= z < |d| ==> d[z] < MAX_CATAL_DEPTH
    ensures var d' := Resolve(g, d, l, ids.pub, ids.sys).depths;
      ReachesCycle(g, l) <==> exists z :: 0 <= z < |g| && Silenced(g, d', z)
  {
    CountersReturnExactlyWhen(g, d, l, ids);
    ResolveFillsOrRestores(g, d, l, ids);
    var d' := Resolve(g, d, l, ids.pub, ids.sys).depths;
    if Filled(d, d') {
      var z :| 0 <= z < |d| && d[z] <= MAX_CATAL_DEPTH < d'[z];
      assert Silenced(g, d', z);
    }
  }

  ghost predicate Silenced(g: Graph, d: Depths, l: nat) {
    && Ready(g, d, l) && d[l] > MAX_CATAL_DEPTH
    && forall pub, sys :: Resolve(g, d, l, pub, sys) == Result(NotFound, d)
  }

  // ---- lookups in a list of catalogs ----

  /** What is prepared is passed on as it is, unless nothing is left of it. */
  lemma {:induction false} PreparedIsPlain(ids: Ids)
    ensures Prepare(ids) == Ids(None, None) || Plain(Prepare(ids))
    decreases SysMeasure(ids.sys), PubMeasure(ids.pub)
  {
    var p := NormPub(ids.pub);
    if p.Some? && IsUrn(p.value) {
      PubMeasureFalls(ids.pub);
      PreparedIsPlain(Ids(Some(Unwrap(p.value)), ids.sys));
    } else if ids.sys.Some? && IsUrn(ids.sys.value) {
      var u := Unwrap(ids.sys.value);
      SysMeasureFalls(ids.sys.value);
      PreparedIsPlain(if p.None? then Ids(Some(u), None) else if p == Some(u) then Ids(p, None) else Ids(p, Some(u)));
    } else if p.Some? {
      NormalIsIdempotent(ids.pub.value);
    }
  }

  lemma {:induction false} ListAsksPrepared(g: Graph, d: Depths, c: nat, ids: Ids)
    requires Ready(g, d, c) && ids != Ids(None, None)
    ensures var r := Prepare(ids); ResolveList(g, d, c, ids.pub, ids.sys) == TryCatalogs(g, d, c, 0, r.pub, r.sys)
    decreases SysMeasure(ids.sys), PubMeasure(ids.pub)
  {
    hide TryCatalogs;
    var p := NormPub(ids.pub);
    if p.Some? && IsUrn(p.value) {
      PubMeasureFalls(ids.pub);
      ListAsksPrepared(g, d, c, Ids(Some(Unwrap(p.value)), ids.sys));
    } else if ids.sys.Some? && IsUrn(ids.sys.value) {
      var u := Unwrap(ids.sys.value);
      SysMeasureFalls(ids.sys.value);
      ListAsksPrepared(g, d, c, if p.None? then Ids(Some(u), None) else if p == Some(u) then Ids(p, None) else Ids(p, Some(u)));
    }
  }

  ghost predicate EntryReachesCycle(g: Graph, c: nat, j: nat)
    requires c < |g|
  {
    j < |g[c]| && g[c][j].kind == Catalog && g[c][j].children.Some? && ReachesCycle(g, g[c][j].children.value)
  }

  /** The same for a lookup in a list of catalogs, which prepares the identifiers. */
  lemma ListCountersReturnExactlyWhen(g: Graph, d: Depths, c: nat, ids: Ids)
    requires Ready(g, d, c) && Prepare(ids) != Ids(None, None) && Unmatched(g, Prepare(ids))
    requires forall z :: 0 <= z < |d| ==> d[z] < MAX_CATAL_DEPTH
    ensures ResolveList(g, d, c, ids.pub, ids.sys).depths == d <==> forall j: nat :: !EntryReachesCycle(g, c, j)
  {
    var r := Prepare(ids);
    PreparedIsPlain(ids);
    ListAsksPrepared(g, d, c, ids);
    hide TryCatalogs, Resolve, ReachesCycle, Matches, Prepare, ResolveList;
    if j: nat :| EntryReachesCycle(g, c, j) {
      if TryCatalogs(g, d, c, 0, r.pub, r.sys).depths == d {
        CatalogHasRestored(g, d, c, 0, j, r);
        CountersReturnExactlyWhen(g, d, g[c][j].children.value, r);
        assert false;
      }
    } else {
      CatalogsReturn(g, d, c, 0, r);
    }
  }

  lemma {:induction false} CatalogsReturn(g: Graph, d: Depths, c: nat, i: nat, ids: Ids)
    requires Ready(g, d, c) && Plain(ids) && Unmatched(g, ids) && i <= |g[c]|
    requires forall z :: 0 <= z < |d| ==> d[z] < MAX_CATAL_DEPTH
    requires forall j: nat :: !EntryReachesCycle(g, c, j)
    ensures TryCatalogs(g, d, c, i, ids.pub, ids.sys) == Result(NotFound, d)
    decreases |g[c]| - i
  {
    if i < |g[c]| {
      assert !EntryReachesCycle(g, c, i);
      if g[c][i].kind == Catalog && g[c][i].children.Some? {
        CountersReturnExactlyWhen(g, d, g[c][i].children.value, ids);
      }
      CatalogsReturn(g, d, c, i + 1, ids);
    }
  }

  // ---- lookups that find something ----

  /** An entry that passes identifiers on to a list; `scope` may say which identifiers. */
  predicate Follows(e: Entry, scope: Option<Ids>) {
    e.children.Some? &&
    (e.kind == NextCatalog
     || if scope.None? then e.kind == DelegateSystem || e.kind == DelegatePublic
        else (scope.value.sys.Some? && Delegates(e, DelegateSystem, scope.value.sys.value))
             || (scope.value.pub.Some? && Delegates(e, DelegatePublic, scope.value.pub.value)))
  }

  ghost predicate RefersBy(g: Graph, scope: Option<Ids>, l: nat, i: nat, j: nat, m: nat) {
    && l < |g| && i < |g[l]| && Follows(g[l][i], scope)
    && var c := g[l][i].children.value;
       c < |g| && j < |g[c]| && g[c][j].kind == Catalog && g[c][j].children == Some(m)
  }

  ghost predicate Refers(g: Graph, scope: Option<Ids>, l: nat, m: nat) {
    exists i: nat, j: nat :: RefersBy(g, scope, l, i, j, m)
  }

  ghost predicate Route(g: Graph, scope: Option<Ids>, p: seq<nat>) {
    p != [] && forall k :: 0 < k < |p| ==> Refers(g, scope, p[k - 1], p[k])
  }

  ghost predicate RouteTo(g: Graph, scope: Option<Ids>, p: seq<nat>, l: nat, m: nat) {
    Route(g, scope, p) && p[0] == l && p[|p| - 1] == m
  }

  ghost predicate Reaches(g: Graph, scope: Option<Ids>, l: nat, m: nat) {
    exists p :: RouteTo(g, scope, p, l, m)
  }

  /** No cycle of references has a further catalog in it; cycles of delegates are allowed. */
  ghost predicate NoNextInCycle(g: Graph, scope: Option<Ids>) {
    forall l: nat, m: nat :: Leads(g, l, m) ==> !Reaches(g, scope, m, l)
  }

  /** The narrower scope follows fewer entries. */
  predicate Narrower(scope: Option<Ids>, wide: Option<Ids>) {
    wide.None? ||
    (scope.Some? && (scope.value.sys.None? || scope.value.sys == wide.value.sys)
     && (scope.value.pub.None? || scope.value.pub == wide.value.pub))
  }

  lemma NarrowerRefers(g: Graph, scope: Option<Ids>, wide: Option<Ids>, l: nat, m: nat)
    requires Narrower(scope, wide) && Refers(g, scope, l, m)
    ensures Refers(g, wide, l, m)
  {
    var i: nat, j: nat :| RefersBy(g, scope, l, i, j, m);
    assert RefersBy(g, wide, l, i, j, m);
  }

  lemma NarrowerReaches(g: Graph, scope: Option<Ids>, wide: Option<Ids>, l: nat, m: nat)
    requires Narrower(scope, wide) && Reaches(g, scope, l, m)
    ensures Reaches(g, wide, l, m)
  {
    var p :| RouteTo(g, scope, p, l, m);
    forall k | 0 < k < |p| ensures Refers(g, wide, p[k - 1], p[k]) {
      NarrowerRefers(g, scope, wide, p[k - 1], p[k]);
    }
    assert RouteTo(g, wide, p, l, m);
  }

  lemma NarrowerNoNext(g: Graph, scope: Option<Ids>, wide: Option<Ids>)
    requires Narrower(scope, wide) && NoNextInCycle(g, wide)
    ensures NoNextInCycle(g, scope)
  {
    forall l: nat, m: nat | Leads(g, l, m) ensures !Reaches(g, scope, m, l) {
      if Reaches(g, scope, m, l) {
        NarrowerReaches(g, scope, wide, m, l);
      }
    }
  }

  lemma ReachesItself(g: Graph, scope: Option<Ids>, l: nat)
    ensures Reaches(g, scope, l, l)
  {
    assert RouteTo(g, scope, [l], l, l);
  }

  lemma ReachesOn(g: Graph, scope: Option<Ids>, l: nat, m: nat, x: nat)
    requires Refers(g, scope, l, m) && Reaches(g, scope, m, x)
    ensures Reaches(g, scope, l, x)
  {
    var p :| RouteTo(g, scope, p, m, x);
    var q := [l] + p;
    forall k | 0 < k < |q| ensures Refers(g, scope, q[k - 1], q[k]) {
      assert k > 1 ==> q[k - 1] == p[k - 2] && q[k] == p[k - 1];
    }
    assert RouteTo(g, scope, q, l, x);
  }

  /** A list that settles nothing itself and passes the identifiers on to the further catalogs */
  predicate AsksNext(list: seq<Entry>, ids: Ids) {
    && ids != Ids(None, None) && DirectAnswer(list, ids.pub, ids.sys).None?
    && (ids.sys.Some? ==> !AnyDelegate(list, DelegateSystem, ids.sys.value))
    && (ids.pub.Some? ==> FirstExact(list, Public, ids.pub.value) == |list|)
    && (ids.pub.Some? ==> !AnyDelegate(list, DelegatePublic, ids.pub.value))
  }

  /** The identifiers a lookup may still be passed on with */
  predicate Later(ids: Ids, later: Ids) {
    later == ids || later == Ids(None, ids.sys) || later == Ids(ids.pub, None)
  }

  /** Wherever the lookup can still come to ask further catalogs, the counter is below the limit. */
  ghost predicate Room(g: Graph, d: Depths, l: nat, ids: Ids) {
    |d| == |g| &&
    forall m: nat, later: Ids :: Reaches(g, Some(ids), l, m) && Later(ids, later) && m < |g| && AsksNext(g[m], later) ==>
      d[m] < MAX_CATAL_DEPTH
  }

  ghost predicate RoomBelow(g: Graph, d: Depths, c: nat, ids: Ids) {
    c < |g| && forall j :: 0 <= j < |g[c]| && g[c][j].kind == Catalog && g[c][j].children.Some? ==>
      Room(g, d, g[c][j].children.value, ids)
  }

  /** A list that delegates does so again with the identifiers it passes on, so its own counter does not matter below. */
  lemma DelegateRoom(g: Graph, d: Depths, l: nat, i: nat, ids: Ids, kind: Kind)
    requires Ready(g, d, l) && d[l] <= MAX_CATAL_DEPTH && Room(g, d, l, ids) && i < |g[l]| && g[l][i].children.Some?
    requires (kind == DelegateSystem && ids.sys.Some? && Delegates(g[l][i], kind, ids.sys.value))
          || (kind == DelegatePublic && ids.pub.Some? && Delegates(g[l][i], kind, ids.pub.value))
    ensures RoomBelow(g, Enter(d, l), g[l][i].children.value, PassedDown(kind, ids))
  {
    var c, d1, down := g[l][i].children.value, Enter(d, l), PassedDown(kind, ids);
    forall j | 0 <= j < |g[c]| && g[c][j].kind == Catalog && g[c][j].children.Some?
      ensures Room(g, d1, g[c][j].children.value, down)
    {
      var m := g[c][j].children.value;
      assert RefersBy(g, Some(ids), l, i, j, m);
      assert Refers(g, Some(ids), l, m);
      forall x: nat, later: Ids | Reaches(g, Some(down), m, x) && Later(down, later) && x < |g| && AsksNext(g[x], later)
        ensures d1[x] < MAX_CATAL_DEPTH
      {
        NarrowerReaches(g, Some(down), Some(ids), m, x);
        ReachesOn(g, Some(ids), l, m, x);
        assert Later(ids, later);
        if x == l {
          DelegatesAgain(g[l], i, down, later);
        }
      }
    }
  }

  function PassedDown(kind: Kind, ids: Ids): Ids {
    if kind == DelegateSystem then Ids(None, ids.sys) else Ids(ids.pub, None)
  }

  lemma DelegatesAgain(list: seq<Entry>, i: nat, down: Ids, later: Ids)
    requires i < |list| && Later(down, later)
    requires (down.pub.None? && down.sys.Some? && Delegates(list[i], DelegateSystem, down.sys.value))
          || (down.sys.None? && down.pub.Some? && Delegates(list[i], DelegatePublic, down.pub.value))
    ensures !AsksNext(list, later)
  {
  }

  /** Below a further catalog the list itself is not met again. */
  lemma NextRoom(g: Graph, d: Depths, l: nat, i: nat, ids: Ids)
    requires Ready(g, d, l) && d[l] <= MAX_CATAL_DEPTH && Room(g, d, l, ids) && NoNextInCycle(g, Some(ids))
    requires i < |g[l]| && g[l][i].kind == NextCatalog && g[l][i].children.Some?
    ensures RoomBelow(g, Enter(d, l), g[l][i].children.value, ids)
  {
    var c, d1 := g[l][i].children.value, Enter(d, l);
    forall j | 0 <= j < |g[c]| && g[c][j].kind == Catalog && g[c][j].children.Some?
      ensures Room(g, d1, g[c][j].children.value, ids)
    {
      var m := g[c][j].children.value;
      assert LeadsBy(g, l, i, j, m) && RefersBy(g, Some(ids), l, i, j, m);
      assert Leads(g, l, m) && Refers(g, Some(ids), l, m);
      forall x: nat, later: Ids | Reaches(g, Some(ids), m, x) && Later(ids, later) && x < |g| && AsksNext(g[x], later)
        ensures d1[x] < MAX_CATAL_DEPTH
      {
        ReachesOn(g, Some(ids), l, m, x);
        assert x != l;
      }
    }
  }

  lemma {:induction false} RoomRestores(g: Graph, d: Depths, l: nat, ids: Ids)
    requires Ready(g, d, l) && Plain(ids) && NoNextInCycle(g, Some(ids)) && Room(g, d, l, ids)
    ensures Resolve(g, d, l, ids.pub, ids.sys).depths == d
    decreases Budget(d), 0, 0
  {
    if d[l] <= MAX_CATAL_DEPTH {
      var d1 := Enter(d, l);
      assert Leave(d1, l) == d;
      if AsksNext(g[l], ids) {
        ReachesItself(g, Some(ids), l);
        assert Later(ids, ids);
        NextRoomRestores(g, d, l, 0, ids);
      } else if DirectAnswer(g[l], ids.pub, ids.sys).None? {
        if ids.sys.Some? && AnyDelegate(g[l], DelegateSystem, ids.sys.value) {
          DelegateRoomRestores(g, d, l, 0, ids, DelegateSystem, []);
        } else if ids.pub.Some? && AnyDelegate(g[l], DelegatePublic, ids.pub.value) {
          DelegateRoomRestores(g, d, l, 0, ids, DelegatePublic, []);
        }
      }
      hide AnyDelegate, DirectAnswer, FirstExact, TryDelegates, TryNext, StuckAt, Room, NoNextInCycle;
    }
  }

  lemma {:induction false} DelegateRoomRestores(g: Graph, d: Depths, l: nat, i: nat, ids: Ids, kind: Kind,
                                                tried: seq<Option<string>>)
    requires Ready(g, d, l) && Plain(ids) && NoNextInCycle(g, Some(ids)) && Room(g, d, l, ids)
    requires d[l] <= MAX_CATAL_DEPTH && i <= |g[l]|
    requires (kind == DelegateSystem && ids.sys.Some?) || (kind == DelegatePublic && ids.pub.Some?)
    ensures var id := if kind == DelegateSystem then ids.sys.value else ids.pub.value;
      TryDelegates(g, Enter(d, l), l, i, kind, id, tried).depths == Enter(d, l)
    decreases Budget(Enter(d, l)), 2, |g[l]| - i
  {
    var id, d1 := if kind == DelegateSystem then ids.sys.value else ids.pub.value, Enter(d, l);
    if i < |g[l]| {
      var e, down := g[l][i], PassedDown(kind, ids);
      var tried' := if |tried| < MAX_DELEGATE then tried + [e.url] else tried;
      DelegateRoomRestores(g, d, l, i + 1, ids, kind, tried);
      DelegateRoomRestores(g, d, l, i + 1, ids, kind, tried');
      if Delegates(e, kind, id) && e.children.Some? {
        DelegateRoom(g, d, l, i, ids, kind);
        NarrowerNoNext(g, Some(down), Some(ids));
        ListAsksCatalogs(g, d1, e.children.value, down);
        RoomBelowRestores(g, d1, e.children.value, 0, down);
      }
      hide Delegates, Room, NoNextInCycle, RoomBelow, ResolveList, TryCatalogs;
    }
  }

  lemma {:induction false} NextRoomRestores(g: Graph, d: Depths, l: nat, i: nat, ids: Ids)
    requires Ready(g, d, l) && Plain(ids) && NoNextInCycle(g, Some(ids)) && Room(g, d, l, ids)
    requires d[l] < MAX_CATAL_DEPTH && i <= |g[l]|
    ensures TryNext(g, Enter(d, l), l, i, ids.pub, ids.sys).depths == Enter(d, l)
    ensures !StuckAt(g, Enter(d, l), l, i, ids.pub, ids.sys)
    decreases Budget(Enter(d, l)), 2, |g[l]| - i
  {
    var d1 := Enter(d, l);
    if i < |g[l]| {
      NextRoomRestores(g, d, l, i + 1, ids);
      if g[l][i].kind == NextCatalog && g[l][i].children.Some? {
        NextRoom(g, d, l, i, ids);
        ListAsksCatalogs(g, d1, g[l][i].children.value, ids);
        RoomBelowRestores(g, d1, g[l][i].children.value, 0, ids);
      }
      hide Room, NoNextInCycle, RoomBelow, ResolveList, TryCatalogs;
    }
  }

  lemma {:induction false} RoomBelowRestores(g: Graph, d: Depths, c: nat, i: nat, ids: Ids)
    requires Ready(g, d, c) && Plain(ids) && NoNextInCycle(g, Some(ids)) && RoomBelow(g, d, c, ids) && i <= |g[c]|
    ensures TryCatalogs(g, d, c, i, ids.pub, ids.sys).depths == d
    decreases Budget(d), 1, |g[c]| - i
  {
    if i < |g[c]| {
      if g[c][i].kind == Catalog && g[c][i].children.Some? {
        RoomRestores(g, d, g[c][i].children.value, ids);
      }
      RoomBelowRestores(g, d, c, i + 1, ids);
      hide Room, NoNextInCycle, RoomBelow, Resolve;
    }
  }

  /** Whatever is found, a lookup brings every counter back if no cycle of the references it may follow has a further
      catalog in it. */
  lemma CountersReturnWithoutNextCycles(g: Graph, d: Depths, l: nat, ids: Ids)
    requires Ready(g, d, l) && Plain(ids) && NoNextInCycle(g, Some(ids))
    requires forall z :: 0 <= z < |d| ==> d[z] < MAX_CATAL_DEPTH
    ensures Resolve(g, d, l, ids.pub, ids.sys).depths == d
  {
    assert Room(g, d, l, ids);
    RoomRestores(g, d, l, ids);
  }

  /** So on such catalogs every lookup in every list does, with any identifiers. */
  lemma AllLookupsReturn(g: Graph, d: Depths, c: nat, ids: Ids)
    requires Ready(g, d, c) && NoNextInCycle(g, None)
    requires forall z :: 0 <= z < |d| ==> d[z] < MAX_CATAL_DEPTH
    ensures ResolveList(g, d, c, ids.pub, ids.sys).depths == d
  {
    var r := Prepare(ids);
    PreparedIsPlain(ids);
    if ids != Ids(None, None) {
      ListAsksPrepared(g, d, c, ids);
      if r == Ids(None, None) {
        NobodyAsked(g, d, c, 0);
      } else {
        NarrowerNoNext(g, Some(r), None);
        forall j | 0 <= j < |g[c]| && g[c][j].kind == Catalog && g[c][j].children.Some?
          ensures Room(g, d, g[c][j].children.value, r)
        {
        }
        RoomBelowRestores(g, d, c, 0, r);
      }
    }
  }

  // ---- an example ----

  /** A catalog that names itself as its next catalog, and knows one system identifier */
  ghost function SelfReferring(): Graph {
    [
      [Entry(NextCatalog, None, Some("self"), false, Some(1)), Entry(System, Some("known"), Some("here"), false, None)],
      [Entry(Catalog, None, Some("self"), false, Some(0))]
    ]
  }

  ghost function Missing(): Option<string> {
    Some("m")
  }

  lemma MissingIsPlain()
    ensures !IsUrn("m") && !IsUrn("known")
  {
    assert |XML_URN_PUBID| == 13;
  }

  /** Looking for an unknown identifier there runs into the limit, and every level then leaves the counter where it is. */
  lemma {:induction false} CounterLeaks(k: nat)
    requires k <= 51
    ensures Ready(SelfReferring(), [k, 0], 0)
    ensures Resolve(SelfReferring(), [k, 0], 0, None, Missing()) == Result(NotFound, [51, 0])
    decreases 51 - k
  {
    var g, d := SelfReferring(), [k, 0];
    if k <= MAX_CATAL_DEPTH {
      var d1 := [k + 1, 0];
      assert Enter(d, 0) == d1;
      CounterLeaks(k + 1);
      NothingDirect();
      NextLeaks(d1);
    }
  }

  lemma NothingDirect()
    ensures DirectAnswer(SelfReferring()[0], None, Missing()) == None
    ensures !AnyDelegate(SelfReferring()[0], DelegateSystem, "m")
  {
    var list := SelfReferring()[0];
    FirstExactIsFirst(list, System, "m");
    BestRewriteIsBest(list, "m");
  }

  lemma NextLeaks(d1: Depths)
    requires Ready(SelfReferring(), d1, 0)
    requires Resolve(SelfReferring(), d1, 0, None, Missing()) == Result(NotFound, [51, 0])
    ensures TryNext(SelfReferring(), d1, 0, 0, None, Missing()) == Result(NotFound, [51, 0])
    ensures StuckAt(SelfReferring(), d1, 0, 0, None, Missing())
  {
    MissingIsPlain();
    var g := SelfReferring();
    assert ResolveList(g, d1, 1, None, Missing()) == TryCatalogs(g, d1, 1, 0, None, Missing());
  }

  /** One failed lookup on a cycle is enough: what the catalog answered before it no longer answers afterwards. */
  lemma CycleSilencesCatalog()
    ensures var g := SelfReferring();
      && Ready(g, [0, 0], 0)
      && Resolve(g, [0, 0], 0, None, Some("known")).answer == Uri("here")
      && Ready(g, Resolve(g, [0, 0], 0, None, Missing()).depths, 0)
      && Resolve(g, Resolve(g, [0, 0], 0, None, Missing()).depths, 0, None, Some("known")).answer == NotFound
  {
    CounterLeaks(0);
    var list := SelfReferring()[0];
    FirstExactIsFirst(list, System, "known");
    assert list[1].kind == System && list[1].name == Some("known");
  }
}
