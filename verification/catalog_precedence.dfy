/** What resolution answers on catalogs that do not refer back to themselves. */
module CatalogPrecedence {
  import opened Basics
  import opened CatalogUrn
  import opened CatalogGraph

  type Ranks = seq<nat>

  /** Entries only refer to lists of lower rank, so no list can lead back to itself. */
  ghost predicate IsRank(g: Graph, rank: Ranks) {
    && |rank| == |g|
    && forall l, i :: 0 <= l < |g| && 0 <= i < |g[l]| && g[l][i].children.Some? && g[l][i].children.value < |g| ==>
         rank[g[l][i].children.value] < rank[l]
  }

  predicate SameSource(e: Entry, f: Entry) {
    e.kind == f.kind && e.url == f.url
  }

  /** Catalogs are fetched by URL: entries of a list with the same URL refer to the same list. */
  ghost predicate FetchedByUrl(g: Graph) {
    forall l, i, j :: 0 <= l < |g| && 0 <= i < |g[l]| && 0 <= j < |g[l]| && SameSource(g[l][i], g[l][j]) ==>
      g[l][i].children == g[l][j].children
  }

  ghost predicate Acyclic(g: Graph, rank: Ranks) {
    Loaded(g) && IsRank(g, rank) && FetchedByUrl(g)
  }

  datatype Ids = Ids(pub: Option<string>, sys: Option<string>)

  /** The identifiers once they are normalised and no `urn:publicid:` name is left to unwrap. */
  ghost function Prepare(ids: Ids): (r: Ids)
    decreases SysMeasure(ids.sys), PubMeasure(ids.pub)
  {
    var p := NormPub(ids.pub);
    if p.Some? && IsUrn(p.value) then
      PubMeasureFalls(ids.pub);
      Prepare(Ids(Some(Unwrap(p.value)), ids.sys))
    else if ids.sys.Some? && IsUrn(ids.sys.value) then
      var u := Unwrap(ids.sys.value);
      SysMeasureFalls(ids.sys.value);
      if p.None? then Prepare(Ids(Some(u), None))
      else if p == Some(u) then Prepare(Ids(p, None))
      else Prepare(Ids(p, Some(u)))
    else Ids(p, ids.sys)
  }

  // ---- the precedence rules, without counters, memory of URLs or limits ----

  /** The order in which catalog.c proceeds: an exact system match, else the longest rewrite, else the system delegates as
      they are listed and nothing after them, else the same for the public identifier, else the further catalogs. What
      section 7.1 of OASIS XML Catalogs asks for is CatalogStandard.Standard. */
  ghost function Precedence(g: Graph, rank: Ranks, l: nat, ids: Ids): Answer
    requires Acyclic(g, rank) && l < |g|
    decreases rank[l], 1, 0
  {
    if DirectAnswer(g[l], ids.pub, ids.sys).Some? then DirectAnswer(g[l], ids.pub, ids.sys).value
    else if ids.sys.Some? && AnyDelegate(g[l], DelegateSystem, ids.sys.value) then
      FirstDelegate(g, rank, l, 0, DelegateSystem, ids.sys.value)
    else if ids.pub.Some? && FirstExact(g[l], Public, ids.pub.value) < |g[l]| then
      Dup(g[l][FirstExact(g[l], Public, ids.pub.value)].url)
    else if ids.pub.Some? && AnyDelegate(g[l], DelegatePublic, ids.pub.value) then
      FirstDelegate(g, rank, l, 0, DelegatePublic, ids.pub.value)
    else if ids.pub.None? && ids.sys.None? then NotFound
    else FirstNext(g, rank, l, 0, ids)
  }

  /** What a delegate or a further catalog answers by itself */
  ghost function Refer(g: Graph, rank: Ranks, l: nat, i: nat, ids: Ids): Answer
    requires Acyclic(g, rank) && l < |g| && i < |g[l]|
    decreases rank[l], 0, |g[l]| - i
  {
    if g[l][i].children.None? then NotFound else ListPrecedence(g, rank, g[l][i].children.value, ids)
  }

  ghost function DelegateIds(kind: Kind, id: string): Ids {
    if kind == DelegateSystem then Ids(None, Some(id)) else Ids(Some(id), None)
  }

  /** The first answer of a matching delegate, or a cut */
  ghost function FirstDelegate(g: Graph, rank: Ranks, l: nat, i: nat, kind: Kind, id: string): Answer
    requires Acyclic(g, rank) && l < |g| && i <= |g[l]|
    decreases rank[l], 0, |g[l]| - i + 1
  {
    if i == |g[l]| then Cut
    else if Delegates(g[l][i], kind, id) && Refer(g, rank, l, i, DelegateIds(kind, id)) != NotFound then
      Refer(g, rank, l, i, DelegateIds(kind, id))
    else FirstDelegate(g, rank, l, i + 1, kind, id)
  }

  /** The first answer of a further catalog */
  ghost function FirstNext(g: Graph, rank: Ranks, l: nat, i: nat, ids: Ids): Answer
    requires Acyclic(g, rank) && l < |g| && i <= |g[l]|
    decreases rank[l], 0, |g[l]| - i + 1
  {
    if i == |g[l]| then NotFound
    else if g[l][i].kind == NextCatalog && Refer(g, rank, l, i, ids) != NotFound then Refer(g, rank, l, i, ids)
    else FirstNext(g, rank, l, i + 1, ids)
  }

  /** The first answer of a catalog of the list, for the prepared identifiers */
  ghost function ListPrecedence(g: Graph, rank: Ranks, c: nat, ids: Ids): Answer
    requires Acyclic(g, rank) && c < |g|
    decreases rank[c], 3, 0
  {
    if ids == Ids(None, None) then NotFound else FirstCatalog(g, rank, c, 0, Prepare(ids))
  }

  ghost function FirstCatalog(g: Graph, rank: Ranks, c: nat, i: nat, ids: Ids): Answer
    requires Acyclic(g, rank) && c < |g| && i <= |g[c]|
    decreases rank[c], 2, |g[c]| - i
  {
    if i == |g[c]| then NotFound
    else if g[c][i].kind == Catalog && g[c][i].children.Some?
            && Precedence(g, rank, g[c][i].children.value, ids) != NotFound then
      Precedence(g, rank, g[c][i].children.value, ids)
    else FirstCatalog(g, rank, c, i + 1, ids)
  }

  // ---- resolution refines them ----

  /** The counters of all lists that can be entered from rank `r` leave room. */
  ghost predicate Low(d: Depths, rank: Ranks, r: nat) {
    |d| == |rank| && forall i :: 0 <= i < |d| && rank[i] <= r ==> d[i] < MAX_CATAL_DEPTH
  }

  /** On acyclic catalogs resolution answers by precedence, and every counter is back at its value. */
  lemma {:induction false} ResolveRefines(g: Graph, d: Depths, rank: Ranks, l: nat, pub: Option<string>, sys: Option<string>)
    requires Ready(g, d, l) && Acyclic(g, rank) && Low(d, rank, rank[l])
    ensures Resolve(g, d, l, pub, sys) == Result(Precedence(g, rank, l, Ids(pub, sys)), d)
    decreases rank[l], 1, 0, 0
  {
    var d1 := Enter(d, l);
    assert Leave(d1, l) == d;
    if sys.Some? {
      DelegatesRefine(g, d1, rank, l, 0, DelegateSystem, sys.value, []);
    }
    if pub.Some? {
      DelegatesRefine(g, d1, rank, l, 0, DelegatePublic, pub.value, []);
    }
    NextRefines(g, d1, rank, l, 0, pub, sys);
  }

  /** The delegate at position `j`, if it matches, has nothing to say. */
  ghost predicate Silent(g: Graph, rank: Ranks, l: nat, j: nat, kind: Kind, id: string)
    requires Acyclic(g, rank) && l < |g| && j < |g[l]|
  {
    Delegates(g[l][j], kind, id) ==> Refer(g, rank, l, j, DelegateIds(kind, id)) == NotFound
  }

  /** Each URL remembered is that of an earlier matching delegate. */
  ghost predicate Remembered(list: seq<Entry>, i: nat, kind: Kind, id: string, tried: seq<Option<string>>) {
    forall u :: u in tried ==> exists j :: 0 <= j < i && j < |list| && Delegates(list[j], kind, id) && list[j].url == u
  }

  /** Trying each URL only once, and remembering only fifty of them, makes no difference. */
  lemma {:induction false} DelegatesRefine(g: Graph, d: Depths, rank: Ranks, l: nat, i: nat, kind: Kind, id: string,
                                           tried: seq<Option<string>>)
    requires Ready(g, d, l) && Acyclic(g, rank) && i <= |g[l]| && (kind == DelegateSystem || kind == DelegatePublic)
    requires |d| == |rank| && forall r :: r < rank[l] ==> Low(d, rank, r)
    requires forall j :: 0 <= j < i ==> Silent(g, rank, l, j, kind, id)
    requires Remembered(g[l], i, kind, id, tried)
    ensures TryDelegates(g, d, l, i, kind, id, tried) == Result(FirstDelegate(g, rank, l, i, kind, id), d)
    decreases rank[l], 0, |g[l]| - i, 0
  {
    if i < |g[l]| {
      var e := g[l][i];
      var tried' := if |tried| < MAX_DELEGATE then tried + [e.url] else tried;
      if Delegates(e, kind, id) && e.url in tried {
        TriedBefore(g, rank, l, i, kind, id, tried);
        DelegatesRefine(g, d, rank, l, i + 1, kind, id, tried);
      } else if Delegates(e, kind, id) {
        if e.children.Some? {
          assert Low(d, rank, rank[e.children.value]);
          var ids := DelegateIds(kind, id);
          ListRefines(g, d, rank, e.children.value, ids.pub, ids.sys);
        }
        if Silent(g, rank, l, i, kind, id) {
          DelegatesRefine(g, d, rank, l, i + 1, kind, id, tried');
        }
      } else {
        DelegatesRefine(g, d, rank, l, i + 1, kind, id, tried);
      }
    }
  }

  lemma TriedBefore(g: Graph, rank: Ranks, l: nat, i: nat, kind: Kind, id: string, tried: seq<Option<string>>)
    requires Acyclic(g, rank) && l < |g| && i < |g[l]| && Delegates(g[l][i], kind, id) && g[l][i].url in tried
    requires forall j :: 0 <= j < i ==> Silent(g, rank, l, j, kind, id)
    requires Remembered(g[l], i, kind, id, tried)
    ensures Silent(g, rank, l, i, kind, id)
  {
    var j :| 0 <= j < i && Delegates(g[l][j], kind, id) && g[l][j].url == g[l][i].url;
    assert Silent(g, rank, l, j, kind, id);
    assert SameSource(g[l][i], g[l][j]);
    assert g[l][i].children == g[l][j].children;
  }

  lemma {:induction false} NextRefines(g: Graph, d: Depths, rank: Ranks, l: nat, i: nat,
                                       pub: Option<string>, sys: Option<string>)
    requires Ready(g, d, l) && Acyclic(g, rank) && i <= |g[l]| && d[l] <= MAX_CATAL_DEPTH
    requires |d| == |rank| && forall r :: r < rank[l] ==> Low(d, rank, r)
    ensures TryNext(g, d, l, i, pub, sys) == Result(FirstNext(g, rank, l, i, Ids(pub, sys)), d)
    ensures !StuckAt(g, d, l, i, pub, sys)
    decreases rank[l], 0, |g[l]| - i, 0
  {
    if i < |g[l]| {
      if g[l][i].children.Some? {
        assert Low(d, rank, rank[g[l][i].children.value]);
        ListRefines(g, d, rank, g[l][i].children.value, pub, sys);
      }
      NextRefines(g, d, rank, l, i + 1, pub, sys);
    }
  }

  lemma {:induction false} ListRefines(g: Graph, d: Depths, rank: Ranks, c: nat, pub: Option<string>, sys: Option<string>)
    requires Ready(g, d, c) && Acyclic(g, rank) && Low(d, rank, rank[c])
    ensures ResolveList(g, d, c, pub, sys) == Result(ListPrecedence(g, rank, c, Ids(pub, sys)), d)
    decreases rank[c], 3, SysMeasure(sys), PubMeasure(pub)
  {
    if pub.Some? || sys.Some? {
      var p := NormPub(pub);
      if p.Some? && IsUrn(p.value) {
        PubMeasureFalls(pub);
        ListRefines(g, d, rank, c, Some(Unwrap(p.value)), sys);
      } else if sys.Some? && IsUrn(sys.value) {
        var u := Unwrap(sys.value);
        SysMeasureFalls(sys.value);
        if p.None? {
          ListRefines(g, d, rank, c, Some(u), None);
        } else if p == Some(u) {
          ListRefines(g, d, rank, c, p, None);
        } else {
          ListRefines(g, d, rank, c, p, Some(u));
        }
      } else {
        CatalogsRefine(g, d, rank, c, 0, p, sys);
      }
    }
  }

  lemma {:induction false} CatalogsRefine(g: Graph, d: Depths, rank: Ranks, c: nat, i: nat,
                                          pub: Option<string>, sys: Option<string>)
    requires Ready(g, d, c) && Acyclic(g, rank) && i <= |g[c]| && Low(d, rank, rank[c])
    ensures TryCatalogs(g, d, c, i, pub, sys) == Result(FirstCatalog(g, rank, c, i, Ids(pub, sys)), d)
    decreases rank[c], 2, |g[c]| - i, 0
  {
    if i < |g[c]| {
      if g[c][i].children.Some? {
        ResolveRefines(g, d, rank, g[c][i].children.value, pub, sys);
      }
      CatalogsRefine(g, d, rank, c, i + 1, pub, sys);
    }
  }

  /** The answer does not depend on how the lists are ranked. */
  lemma RanksDoNotMatter(g: Graph, rank: Ranks, rank': Ranks, c: nat, ids: Ids)
    requires Acyclic(g, rank) && Acyclic(g, rank') && c < |g|
    ensures ListPrecedence(g, rank, c, ids) == ListPrecedence(g, rank', c, ids)
  {
    var zero := seq(|g|, i => 0);
    ListRefines(g, zero, rank, c, ids.pub, ids.sys);
    ListRefines(g, zero, rank', c, ids.pub, ids.sys);
  }
}
