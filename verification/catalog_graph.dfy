/** External identifier resolution of catalog.c as a function of the entry lists and their depth counters. */
module CatalogGraph {
  import opened Basics
  import opened CatalogText
  import opened CatalogUrn

  const MAX_CATAL_DEPTH := 50
  const MAX_DELEGATE := 50

  datatype Kind = Catalog | NextCatalog | Public | System | RewriteSystem | DelegatePublic | DelegateSystem | Other

  /** `children` is the list an entry refers to, if it could be loaded. */
  datatype Entry =
    Entry(kind: Kind, name: Option<string>, url: Option<string>, preferPublic: bool, children: Option<nat>)

  /** A loaded set of catalogs: every list of entries that some entry refers to, by its number. */
  type Graph = seq<seq<Entry>>

  ghost predicate Loaded(g: Graph) {
    forall l, i :: 0 <= l < |g| && 0 <= i < |g[l]| && g[l][i].children.Some? ==> g[l][i].children.value < |g|
  }

  /** The depth counters of the lists */
  type Depths = seq<nat>

  ghost predicate Bounded(d: Depths) {
    forall i :: 0 <= i < |d| ==> d[i] <= MAX_CATAL_DEPTH + 1
  }

  /** No counter of `d'` is below that of `d`, and none is above 51. */
  ghost predicate Above(d: Depths, d': Depths) {
    |d'| == |d| && Bounded(d') && forall i :: 0 <= i < |d| ==> d[i] <= d'[i]
  }

  datatype Answer = NotFound | Cut | Uri(uri: string)

  /** xmlStrdup of a URL that may be missing */
  function Dup(url: Option<string>): Answer {
    match url case None => NotFound case Some(u) => Uri(u)
  }

  /** xmlStrncmp(id, name, xmlStrlen(name)) == 0; a missing name has length zero. */
  predicate Begins(id: string, name: Option<string>) {
    name.None? || name.value <= id
  }

  // ---- what one pass over a list finds ----

  /** The first entry of this kind whose name is the identifier */
  function FirstExact(list: seq<Entry>, kind: Kind, id: string): (k: nat)
    ensures k <= |list|
  {
    if list == [] then 0
    else if list[0].kind == kind && list[0].name == Some(id) then 0
    else 1 + FirstExact(list[1..], kind, id)
  }

  predicate Rewrites(e: Entry, id: string) {
    e.kind == RewriteSystem && e.name.Some? && e.name.value != "" && e.name.value <= id
  }

  /** The rewrite rule with the longest prefix, the first of them if several are as long. */
  ghost predicate IsBestRewrite(list: seq<Entry>, id: string, k: nat) {
    && k < |list| && Rewrites(list[k], id)
    && (forall j :: 0 <= j < |list| && Rewrites(list[j], id) ==> |list[j].name.value| <= |list[k].name.value|)
    && (forall j :: 0 <= j < k && Rewrites(list[j], id) ==> |list[j].name.value| < |list[k].name.value|)
  }

  function BestRewrite(list: seq<Entry>, id: string): (best: Option<nat>)
    ensures best.Some? ==> best.value < |list| && Rewrites(list[best.value], id)
  {
    if list == [] then None
    else
      var n := |list| - 1;
      var best := BestRewrite(list[..n], id);
      if Rewrites(list[n], id) && (best.None? || |list[n].name.value| > |list[best.value].name.value|) then Some(n)
      else best
  }

  /** An entry that passes the identifier on */
  predicate Delegates(e: Entry, kind: Kind, id: string) {
    e.kind == kind && Begins(id, e.name) && (kind == DelegatePublic ==> e.preferPublic)
  }

  predicate AnyDelegate(list: seq<Entry>, kind: Kind, id: string) {
    exists i :: 0 <= i < |list| && Delegates(list[i], kind, id)
  }

  lemma {:induction false} BestRewriteIsBest(list: seq<Entry>, id: string)
    ensures BestRewrite(list, id).Some? ==> IsBestRewrite(list, id, BestRewrite(list, id).value)
    ensures BestRewrite(list, id).None? ==> forall j :: 0 <= j < |list| ==> !Rewrites(list[j], id)
  {
    if list != [] {
      BestRewriteIsBest(list[..|list| - 1], id);
    }
  }

  lemma {:induction false} FirstExactIsFirst(list: seq<Entry>, kind: Kind, id: string)
    ensures var k := FirstExact(list, kind, id);
      && (k < |list| ==> list[k].kind == kind && list[k].name == Some(id))
      && (forall j :: 0 <= j < k ==> !(list[j].kind == kind && list[j].name == Some(id)))
  {
    if list != [] && !(list[0].kind == kind && list[0].name == Some(id)) {
      FirstExactIsFirst(list[1..], kind, id);
      assert forall j :: 1 <= j < |list| ==> list[j] == list[1..][j - 1];
    }
  }

  /** The answer of a pass for exact matches and rewrite rules, if there is one. */
  function DirectAnswer(list: seq<Entry>, pub: Option<string>, sys: Option<string>): Option<Answer> {
    if sys.Some? && FirstExact(list, System, sys.value) < |list| then
      Some(Dup(list[FirstExact(list, System, sys.value)].url))
    else if sys.Some? && BestRewrite(list, sys.value).Some? then
      Some(Rewritten(list[BestRewrite(list, sys.value).value], sys.value))
    else None
  }

  function Rewritten(e: Entry, id: string): Answer
    requires Rewrites(e, id)
  {
    if e.url.None? then NotFound else Uri(e.url.value + id[|e.name.value|..])
  }

  // ---- identifiers on the way in ----

  /** The normalised public identifier; one that normalises to nothing counts as missing. */
  function NormPub(pub: Option<string>): Option<string> {
    if pub.None? || Normal(pub.value) == "" then None else Some(Normal(pub.value))
  }

  function Unwrap(urn: string): string
    requires IsUrn(urn)
  {
    Unwrapped(urn[|XML_URN_PUBID|..], 0)
  }

  /** Bounds on how often an identifier can still be unwrapped */
  function PubMeasure(pub: Option<string>): nat {
    if NormPub(pub).Some? && IsUrn(NormPub(pub).value) then 1 + Percents(NormPub(pub).value) else 0
  }

  function SysMeasure(sys: Option<string>): nat {
    if sys.None? then 0 else if IsUrn(sys.value) then 2 + Percents(sys.value) else 1
  }

  lemma UrnPercents(urn: string)
    requires IsUrn(urn)
    ensures Percents(urn) == Percents(urn[|XML_URN_PUBID|..])
  {
    PercentsConcat(XML_URN_PUBID, urn[|XML_URN_PUBID|..]);
    assert urn == XML_URN_PUBID + urn[|XML_URN_PUBID|..];
    NoPercents();
  }

  lemma NoPercents()
    ensures Percents(XML_URN_PUBID) == 0
  {
    assert '%' !in XML_URN_PUBID;
    WithoutPercent(XML_URN_PUBID);
  }

  lemma {:induction false} WithoutPercent(s: string)
    requires '%' !in s
    ensures Percents(s) == 0
  {
    if s != [] {
      WithoutPercent(s[1..]);
    }
  }

  lemma PubMeasureFalls(pub: Option<string>)
    requires NormPub(pub).Some? && IsUrn(NormPub(pub).value)
    ensures PubMeasure(Some(Unwrap(NormPub(pub).value))) < PubMeasure(pub)
  {
    var n := NormPub(pub).value;
    var w := Unwrap(n);
    UrnPercents(n);
    if PubMeasure(Some(w)) > 0 {
      UnwrapLosesPercent(n[|XML_URN_PUBID|..], 0);
      NormalPercents(w);
    }
  }

  lemma SysMeasureFalls(sys: string)
    requires IsUrn(sys)
    ensures SysMeasure(Some(Unwrap(sys))) < SysMeasure(Some(sys))
  {
    var w := Unwrap(sys);
    UrnPercents(sys);
    if IsUrn(w) {
      UrnIsFirst(w);
      UnwrapLosesPercent(sys[|XML_URN_PUBID|..], 0);
    }
  }

  /** A `urn:publicid:` name keeps its prefix when it is normalised. */
  lemma UrnIsFirst(w: string)
    requires IsUrn(w)
    ensures IsUrn(Normal(w))
  {
    EmitWords(w);
    var t := w[|XML_URN_PUBID|..];
    assert w == XML_URN_PUBID + t;
    EmitPlain(XML_URN_PUBID[1..], t);
    assert w[1..] == XML_URN_PUBID[1..] + t;
    assert Emit(w, false, false) == "" + [w[0]] + Emit(w[1..], true, false);
  }

  lemma {:induction false} EmitPlain(a: string, t: string)
    requires forall i :: 0 <= i < |a| ==> !IsBlank(a[i])
    ensures Emit(a + t, true, false) == a + Emit(t, true, false)
  {
    if a == [] {
      assert a + t == t;
    } else {
      assert (a + t)[1..] == a[1..] + t;
      EmitPlain(a[1..], t);
    }
  }

  // ---- the counters as a bound on nested calls ----

  /** How far the counters still are from 51, in all */
  ghost function Budget(d: Depths): nat
    requires Bounded(d)
  {
    if d == [] then 0 else MAX_CATAL_DEPTH + 1 - d[0] + Budget(d[1..])
  }

  lemma {:induction false} BudgetFalls(d: Depths, d': Depths)
    requires Bounded(d) && Above(d, d')
    ensures Budget(d') <= Budget(d)
    ensures d != d' ==> Budget(d') < Budget(d)
  {
    if d != [] {
      BudgetFalls(d[1..], d'[1..]);
      assert d == [d[0]] + d[1..] && d' == [d'[0]] + d'[1..];
    }
  }

  ghost function Enter(d: Depths, l: nat): (d': Depths)
    requires l < |d| && Bounded(d) && d[l] <= MAX_CATAL_DEPTH
    ensures Above(d, d') && Budget(d') < Budget(d) && d'[l] == d[l] + 1
  {
    var d' := d[l := d[l] + 1];
    BudgetFalls(d, d');
    d'
  }

  ghost function Leave(d: Depths, l: nat): Depths
    requires l < |d| && d[l] > 0
  {
    d[l := d[l] - 1]
  }

  // ---- resolution ----

  /** An answer and the counters after it */
  datatype Result = Result(answer: Answer, depths: Depths)

  ghost predicate Ready(g: Graph, d: Depths, l: nat) {
    Loaded(g) && |d| == |g| && Bounded(d) && l < |g|
  }

  /** xmlCatalogXMLResolve on the list `l`. A list whose counter is above the limit answers nothing. */
  ghost function Resolve(g: Graph, d: Depths, l: nat, pub: Option<string>, sys: Option<string>): (r: Result)
    requires Ready(g, d, l)
    ensures Above(d, r.depths)
    decreases Budget(d), 0, 0, 0, 0
  {
    if d[l] > MAX_CATAL_DEPTH then Result(NotFound, d)
    else
      var d1 := Enter(d, l);
      if DirectAnswer(g[l], pub, sys).Some? then Result(DirectAnswer(g[l], pub, sys).value, Leave(d1, l))
      else if sys.Some? && AnyDelegate(g[l], DelegateSystem, sys.value) then
        var r := TryDelegates(g, d1, l, 0, DelegateSystem, sys.value, []);
        Result(r.answer, Leave(r.depths, l))
      else if pub.Some? && FirstExact(g[l], Public, pub.value) < |g[l]| then
        Result(Dup(g[l][FirstExact(g[l], Public, pub.value)].url), Leave(d1, l))
      else if pub.Some? && AnyDelegate(g[l], DelegatePublic, pub.value) then
        var r := TryDelegates(g, d1, l, 0, DelegatePublic, pub.value, []);
        Result(r.answer, Leave(r.depths, l))
      else if pub.None? && sys.None? then Result(NotFound, Leave(d1, l))
      else
        var r := TryNext(g, d1, l, 0, pub, sys);
        if r.answer == NotFound && StuckAt(g, d1, l, 0, pub, sys) then Result(NotFound, r.depths)
        else Result(r.answer, Leave(r.depths, l))
  }

  /** The matching delegates in order, each URL once (the first fifty are remembered); nothing found cuts the search. */
  ghost function TryDelegates(g: Graph, d: Depths, l: nat, i: nat, kind: Kind, id: string, tried: seq<Option<string>>)
    : (r: Result)
    requires Ready(g, d, l) && i <= |g[l]|
    ensures Above(d, r.depths)
    decreases Budget(d), 3, |g[l]| - i, 0, 0
  {
    if i == |g[l]| then Result(Cut, d)
    else if !Delegates(g[l][i], kind, id) || g[l][i].url in tried then TryDelegates(g, d, l, i + 1, kind, id, tried)
    else
      var tried' := if |tried| < MAX_DELEGATE then tried + [g[l][i].url] else tried;
      if g[l][i].children.None? then TryDelegates(g, d, l, i + 1, kind, id, tried')
      else
        var r := if kind == DelegateSystem then ResolveList(g, d, g[l][i].children.value, None, Some(id))
                 else ResolveList(g, d, g[l][i].children.value, Some(id), None);
        if r.answer != NotFound then r
        else
          BudgetFalls(d, r.depths);
          TryDelegates(g, r.depths, l, i + 1, kind, id, tried')
  }

  /** The nextCatalog entries in order, until an answer, or until the own counter is found above the limit. */
  ghost function TryNext(g: Graph, d: Depths, l: nat, i: nat, pub: Option<string>, sys: Option<string>): (r: Result)
    requires Ready(g, d, l) && i <= |g[l]|
    ensures Above(d, r.depths)
    decreases Budget(d), 3, |g[l]| - i, 0, 0
  {
    if i == |g[l]| then Result(NotFound, d)
    else if g[l][i].kind != NextCatalog || g[l][i].children.None? then TryNext(g, d, l, i + 1, pub, sys)
    else
      var r := ResolveList(g, d, g[l][i].children.value, pub, sys);
      if r.answer != NotFound || r.depths[l] > MAX_CATAL_DEPTH then r
      else
        BudgetFalls(d, r.depths);
        TryNext(g, r.depths, l, i + 1, pub, sys)
  }

  /** Whether TryNext stops because of the own counter: this exit leaves the counter as it is. */
  ghost predicate StuckAt(g: Graph, d: Depths, l: nat, i: nat, pub: Option<string>, sys: Option<string>)
    requires Ready(g, d, l) && i <= |g[l]|
    decreases Budget(d), 3, |g[l]| - i, 0, 0
  {
    if i == |g[l]| then false
    else if g[l][i].kind != NextCatalog || g[l][i].children.None? then StuckAt(g, d, l, i + 1, pub, sys)
    else
      var r := ResolveList(g, d, g[l][i].children.value, pub, sys);
      if r.answer != NotFound then false
      else if r.depths[l] > MAX_CATAL_DEPTH then true
      else
        BudgetFalls(d, r.depths);
        StuckAt(g, r.depths, l, i + 1, pub, sys)
  }

  /** xmlCatalogListXMLResolve on the list `c` */
  ghost function ResolveList(g: Graph, d: Depths, c: nat, pub: Option<string>, sys: Option<string>): (r: Result)
    requires Ready(g, d, c)
    ensures Above(d, r.depths)
    decreases Budget(d), 2, SysMeasure(sys), PubMeasure(pub), 0
  {
    if pub.None? && sys.None? then Result(NotFound, d)
    else
      var p := NormPub(pub);
      if p.Some? && IsUrn(p.value) then
        PubMeasureFalls(pub);
        ResolveList(g, d, c, Some(Unwrap(p.value)), sys)
      else if sys.Some? && IsUrn(sys.value) then
        var u := Unwrap(sys.value);
        SysMeasureFalls(sys.value);
        if p.None? then ResolveList(g, d, c, Some(u), None)
        else if p == Some(u) then ResolveList(g, d, c, p, None)
        else ResolveList(g, d, c, p, Some(u))
      else TryCatalogs(g, d, c, 0, p, sys)
  }

  /** The catalog entries of the list in order, until an answer, or until a counter is found above the limit. */
  ghost function TryCatalogs(g: Graph, d: Depths, c: nat, i: nat, pub: Option<string>, sys: Option<string>): (r: Result)
    requires Ready(g, d, c) && i <= |g[c]|
    ensures Above(d, r.depths)
    decreases Budget(d), 1, |g[c]| - i, 0, 0
  {
    if i == |g[c]| then Result(NotFound, d)
    else if g[c][i].kind != Catalog || g[c][i].children.None? then TryCatalogs(g, d, c, i + 1, pub, sys)
    else
      var l := g[c][i].children.value;
      var r := Resolve(g, d, l, pub, sys);
      if r.answer != NotFound || r.depths[l] > MAX_CATAL_DEPTH then r
      else
        BudgetFalls(d, r.depths);
        TryCatalogs(g, r.depths, c, i + 1, pub, sys)
  }
}
