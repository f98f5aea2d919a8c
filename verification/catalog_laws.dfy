/** Single steps of resolution, in terms of the entries of one list. */
module CatalogLaws {
  import opened Basics
  import opened CatalogGraph
  import opened CatalogPrecedence
  import CatalogCycles

  /** What makes an entry match, character by character */
  lemma MatchIs(e: Entry, kind: Kind, id: string)
    ensures Rewrites(e, id) <==>
      e.kind == RewriteSystem && e.name.Some? && 0 < |e.name.value| <= |id| && id[..|e.name.value|] == e.name.value
    ensures Delegates(e, kind, id) <==>
      e.kind == kind && (kind == DelegatePublic ==> e.preferPublic)
      && (e.name.Some? ==> |e.name.value| <= |id| && id[..|e.name.value|] == e.name.value)
  {
  }

  ghost predicate IsFirst(list: seq<Entry>, kind: Kind, id: string, k: nat) {
    && k < |list| && list[k].kind == kind && list[k].name == Some(id)
    && (forall j :: 0 <= j < k ==> !(list[j].kind == kind && list[j].name == Some(id)))
  }

  predicate Unknown(list: seq<Entry>, kind: Kind, id: string) {
    forall j :: 0 <= j < |list| ==> !(list[j].kind == kind && list[j].name == Some(id))
  }

  /** No system entry, no rewrite rule and no delegate matches. */
  predicate NothingForSystem(list: seq<Entry>, sys: Option<string>) {
    sys.Some? ==>
      && Unknown(list, System, sys.value)
      && forall j :: 0 <= j < |list| ==> !Rewrites(list[j], sys.value) && !Delegates(list[j], DelegateSystem, sys.value)
  }

  predicate NothingForPublic(list: seq<Entry>, pub: Option<string>) {
    pub.Some? ==>
      && Unknown(list, Public, pub.value)
      && forall j :: 0 <= j < |list| ==> !Delegates(list[j], DelegatePublic, pub.value)
  }

  lemma FirstIs(list: seq<Entry>, kind: Kind, id: string)
    ensures forall k: nat :: IsFirst(list, kind, id, k) ==> FirstExact(list, kind, id) == k
    ensures Unknown(list, kind, id) <==> FirstExact(list, kind, id) == |list|
  {
    FirstExactIsFirst(list, kind, id);
    hide FirstExact;
  }

  lemma BestIs(list: seq<Entry>, id: string)
    ensures forall k: nat :: IsBestRewrite(list, id, k) ==> BestRewrite(list, id) == Some(k)
    ensures BestRewrite(list, id) == None <==> forall j :: 0 <= j < |list| ==> !Rewrites(list[j], id)
  {
    BestRewriteIsBest(list, id);
    hide BestRewrite, Rewrites;
  }

  /** The first system entry with the identifier answers, whatever else is there; one without a URL answers nothing. */
  lemma SystemEntryAnswers(g: Graph, d: Depths, l: nat, pub: Option<string>, sys: string, k: nat)
    requires Ready(g, d, l) && d[l] <= 50 && IsFirst(g[l], System, sys, k)
    ensures Resolve(g, d, l, pub, Some(sys)) ==
      Result(if g[l][k].url.None? then NotFound else Uri(g[l][k].url.value), d)
  {
    FirstIs(g[l], System, sys);
    hide FirstExact, BestRewrite;
    assert Leave(Enter(d, l), l) == d;
  }

  /** Otherwise the longest rewrite rule, with the rest of the identifier behind its URL. */
  lemma RewriteAnswers(g: Graph, d: Depths, l: nat, pub: Option<string>, sys: string, k: nat)
    requires Ready(g, d, l) && d[l] <= 50 && Unknown(g[l], System, sys) && IsBestRewrite(g[l], sys, k)
    ensures Resolve(g, d, l, pub, Some(sys)) ==
      Result(if g[l][k].url.None? then NotFound else Uri(g[l][k].url.value + sys[|g[l][k].name.value|..]), d)
  {
    FirstIs(g[l], System, sys);
    BestIs(g[l], sys);
    hide FirstExact, BestRewrite;
    assert Leave(Enter(d, l), l) == d;
  }

  /** Otherwise the delegates, if there are any, and nothing after them. */
  lemma SystemDelegatesAnswer(g: Graph, d: Depths, l: nat, pub: Option<string>, sys: string, i: nat)
    requires Ready(g, d, l) && d[l] <= 50 && Unknown(g[l], System, sys)
    requires forall j :: 0 <= j < |g[l]| ==> !Rewrites(g[l][j], sys)
    requires i < |g[l]| && Delegates(g[l][i], DelegateSystem, sys)
    ensures var r := TryDelegates(g, Enter(d, l), l, 0, DelegateSystem, sys, []);
      Resolve(g, d, l, pub, Some(sys)) == Result(r.answer, r.depths[l := r.depths[l] - 1])
  {
    FirstIs(g[l], System, sys);
    BestIs(g[l], sys);
    hide FirstExact, BestRewrite, Delegates, TryDelegates, Enter;
  }

  /** The public identifier counts where there is nothing for the system identifier. */
  lemma PublicEntryAnswers(g: Graph, d: Depths, l: nat, pub: string, sys: Option<string>, k: nat)
    requires Ready(g, d, l) && d[l] <= 50 && NothingForSystem(g[l], sys) && IsFirst(g[l], Public, pub, k)
    ensures Resolve(g, d, l, Some(pub), sys) ==
      Result(if g[l][k].url.None? then NotFound else Uri(g[l][k].url.value), d)
  {
    NoSystem(g[l], sys);
    FirstIs(g[l], Public, pub);
    hide FirstExact, BestRewrite, Delegates, TryDelegates;
    assert Leave(Enter(d, l), l) == d;
  }

  lemma NoSystem(list: seq<Entry>, sys: Option<string>)
    requires NothingForSystem(list, sys)
    ensures DirectAnswer(list, None, sys) == None && (sys.Some? ==> !AnyDelegate(list, DelegateSystem, sys.value))
  {
    if sys.Some? {
      FirstIs(list, System, sys.value);
      BestIs(list, sys.value);
    }
    hide FirstExact, BestRewrite, Delegates;
  }

  lemma PublicDelegatesAnswer(g: Graph, d: Depths, l: nat, pub: string, sys: Option<string>, i: nat)
    requires Ready(g, d, l) && d[l] <= 50 && NothingForSystem(g[l], sys) && Unknown(g[l], Public, pub)
    requires i < |g[l]| && Delegates(g[l][i], DelegatePublic, pub)
    ensures var r := TryDelegates(g, Enter(d, l), l, 0, DelegatePublic, pub, []);
      Resolve(g, d, l, Some(pub), sys) == Result(r.answer, r.depths[l := r.depths[l] - 1])
  {
    NoSystem(g[l], sys);
    FirstIs(g[l], Public, pub);
    hide FirstExact, BestRewrite, Delegates, TryDelegates, Enter;
  }

  // ---- the catalogs referred to ----

  /** A delegate is asked for the one identifier it matches. */
  ghost function AskDelegate(g: Graph, d: Depths, l: nat, i: nat, kind: Kind, id: string): Result
    requires Ready(g, d, l) && i < |g[l]|
  {
    if g[l][i].children.None? then Result(NotFound, d)
    else if kind == DelegateSystem then ResolveList(g, d, g[l][i].children.value, None, Some(id))
    else ResolveList(g, d, g[l][i].children.value, Some(id), None)
  }

  /** The first matching delegate is asked first; if the others have its URL, it is the only one asked, and a search that
      finds nothing is cut off. */
  lemma {:induction false} FirstDelegateAnswers(g: Graph, d: Depths, l: nat, kind: Kind, id: string, k: nat)
    requires Ready(g, d, l) && k < |g[l]| && Delegates(g[l][k], kind, id)
    requires forall j :: 0 <= j < k ==> !Delegates(g[l][j], kind, id)
    ensures var r := AskDelegate(g, d, l, k, kind, id);
      && (r.answer != NotFound ==> TryDelegates(g, d, l, 0, kind, id, []) == r)
      && (r.answer == NotFound && (forall j :: 0 <= j < |g[l]| && Delegates(g[l][j], kind, id) ==> g[l][j].url == g[l][k].url) ==>
            TryDelegates(g, d, l, 0, kind, id, []) == Result(Cut, r.depths))
  {
    hide Delegates, ResolveList;
    assert [] + [g[l][k].url] == [g[l][k].url];
    NotYet(g, d, l, 0, k, kind, id, []);
    var r := AskDelegate(g, d, l, k, kind, id);
    if r.answer == NotFound && (forall j :: 0 <= j < |g[l]| && Delegates(g[l][j], kind, id) ==> g[l][j].url == g[l][k].url) {
      AllTried(g, r.depths, l, k + 1, kind, id, [g[l][k].url]);
    }
  }

  /** A delegate that finds nothing is not asked again under its URL, if fewer than fifty URLs were remembered before it. */
  lemma FiftyAreRemembered(g: Graph, d: Depths, l: nat, i: nat, kind: Kind, id: string, tried: seq<Option<string>>)
    requires Ready(g, d, l) && i < |g[l]| && Delegates(g[l][i], kind, id) && g[l][i].url !in tried
    ensures var r := AskDelegate(g, d, l, i, kind, id);
      TryDelegates(g, d, l, i, kind, id, tried) ==
        if r.answer != NotFound then r
        else TryDelegates(g, r.depths, l, i + 1, kind, id, if |tried| < 50 then tried + [g[l][i].url] else tried)
  {
    hide Delegates, ResolveList;
  }

  lemma {:induction false} NotYet(g: Graph, d: Depths, l: nat, i: nat, k: nat, kind: Kind, id: string,
                                  tried: seq<Option<string>>)
    requires Ready(g, d, l) && i <= k <= |g[l]| && forall j :: i <= j < k ==> !Delegates(g[l][j], kind, id)
    ensures TryDelegates(g, d, l, i, kind, id, tried) == TryDelegates(g, d, l, k, kind, id, tried)
    decreases k - i
  {
    hide Delegates;
    if i < k {
      NotYet(g, d, l, i + 1, k, kind, id, tried);
    }
  }

  lemma {:induction false} AllTried(g: Graph, d: Depths, l: nat, i: nat, kind: Kind, id: string, tried: seq<Option<string>>)
    requires Ready(g, d, l) && i <= |g[l]|
    requires forall j :: i <= j < |g[l]| && Delegates(g[l][j], kind, id) ==> g[l][j].url in tried
    ensures TryDelegates(g, d, l, i, kind, id, tried) == Result(Cut, d)
    decreases |g[l]| - i
  {
    hide Delegates;
    if i < |g[l]| {
      AllTried(g, d, l, i + 1, kind, id, tried);
    }
  }

  /** None of the entries from `i` up to `k` is a further catalog that could be loaded. */
  predicate NoneFurther(list: seq<Entry>, i: nat, k: nat)
    requires i <= k <= |list|
  {
    forall j :: i <= j < k ==> !(list[j].kind == NextCatalog && list[j].children.Some?)
  }

  /** Where nothing matches, the first further catalog is asked with both identifiers. If it finds nothing and the own
      counter is then beyond the limit, the search ends there and the counter stays. */
  lemma FirstNextAnswers(g: Graph, d: Depths, l: nat, pub: Option<string>, sys: Option<string>, k: nat)
    requires Ready(g, d, l) && d[l] <= 50 && NothingForSystem(g[l], sys) && NothingForPublic(g[l], pub)
    requires pub.Some? || sys.Some?
    requires k < |g[l]| && g[l][k].kind == NextCatalog && g[l][k].children.Some?
    requires NoneFurther(g[l], 0, k)
    ensures var r := ResolveList(g, Enter(d, l), g[l][k].children.value, pub, sys);
      && (r.answer != NotFound ==> Resolve(g, d, l, pub, sys) == Result(r.answer, r.depths[l := r.depths[l] - 1]))
      && (r.answer == NotFound && r.depths[l] == 51 ==> Resolve(g, d, l, pub, sys) == r)
      && (r.answer == NotFound && r.depths[l] < 51 && NoneFurther(g[l], k + 1, |g[l]|) ==>
            Resolve(g, d, l, pub, sys) == Result(NotFound, r.depths[l := r.depths[l] - 1]))
  {
    hide Resolve, TryNext, StuckAt, ResolveList, NothingForSystem, NothingForPublic, NoneFurther, Budget;
    NextIsAsked(g, d, l, pub, sys);
    var d1 := Enter(d, l);
    hide Enter;
    NextTurn(g, d1, l, pub, sys, k);
  }

  lemma NextIsAsked(g: Graph, d: Depths, l: nat, pub: Option<string>, sys: Option<string>)
    requires Ready(g, d, l) && d[l] <= 50 && NothingForSystem(g[l], sys) && NothingForPublic(g[l], pub)
    requires pub.Some? || sys.Some?
    ensures var d1 := Enter(d, l); var r := TryNext(g, d1, l, 0, pub, sys);
      Resolve(g, d, l, pub, sys) ==
        if r.answer == NotFound && StuckAt(g, d1, l, 0, pub, sys) then r else Result(r.answer, Leave(r.depths, l))
  {
    NoSystem(g[l], sys);
    NoPublic(g[l], pub);
    hide NothingForSystem, NothingForPublic, FirstExact, BestRewrite, Delegates, AnyDelegate, TryDelegates, TryNext, StuckAt, Enter, Leave;
  }

  lemma NextTurn(g: Graph, d: Depths, l: nat, pub: Option<string>, sys: Option<string>, k: nat)
    requires Ready(g, d, l) && k < |g[l]| && g[l][k].kind == NextCatalog && g[l][k].children.Some?
    requires NoneFurther(g[l], 0, k)
    ensures var r := ResolveList(g, d, g[l][k].children.value, pub, sys);
      && (r.answer != NotFound || r.depths[l] == 51 ==> TryNext(g, d, l, 0, pub, sys) == r)
      && (r.answer == NotFound ==> (r.depths[l] == 51 ==> StuckAt(g, d, l, 0, pub, sys)))
      && (r.answer == NotFound && r.depths[l] < 51 && NoneFurther(g[l], k + 1, |g[l]|) ==>
            TryNext(g, d, l, 0, pub, sys) == r && !StuckAt(g, d, l, 0, pub, sys))
  {
    NoNextBefore(g, d, l, 0, k, pub, sys);
    var r := ResolveList(g, d, g[l][k].children.value, pub, sys);
    hide ResolveList;
    if r.answer == NotFound && r.depths[l] < 51 && NoneFurther(g[l], k + 1, |g[l]|) {
      NoNextBefore(g, r.depths, l, k + 1, |g[l]|, pub, sys);
    }
  }

  lemma NoPublic(list: seq<Entry>, pub: Option<string>)
    requires NothingForPublic(list, pub)
    ensures pub.Some? ==> FirstExact(list, Public, pub.value) == |list| && !AnyDelegate(list, DelegatePublic, pub.value)
  {
    if pub.Some? {
      FirstIs(list, Public, pub.value);
    }
    hide FirstExact, Delegates;
  }

  lemma {:induction false} NoNextBefore(g: Graph, d: Depths, l: nat, i: nat, k: nat, pub: Option<string>, sys: Option<string>)
    requires Ready(g, d, l) && i <= k <= |g[l]|
    requires NoneFurther(g[l], i, k)
    ensures TryNext(g, d, l, i, pub, sys) == TryNext(g, d, l, k, pub, sys)
    ensures StuckAt(g, d, l, i, pub, sys) == StuckAt(g, d, l, k, pub, sys)
    decreases k - i
  {
    if i < k {
      NoNextBefore(g, d, l, i + 1, k, pub, sys);
    }
  }

  /** With nothing to ask a list answers nothing, and its counter is back. */
  lemma NothingAnswers(g: Graph, d: Depths, l: nat, pub: Option<string>, sys: Option<string>)
    requires Ready(g, d, l) && d[l] <= 50 && NothingForSystem(g[l], sys) && NothingForPublic(g[l], pub)
    requires NoneFurther(g[l], 0, |g[l]|)
    ensures Resolve(g, d, l, pub, sys) == Result(NotFound, d)
  {
    NoSystem(g[l], sys);
    NoPublic(g[l], pub);
    var d1 := Enter(d, l);
    NoNextBefore(g, d1, l, 0, |g[l]|, pub, sys);
    assert Leave(d1, l) == d;
    hide FirstExact, BestRewrite, Delegates, TryDelegates, ResolveList, Enter;
  }

  /** A list beyond the limit answers nothing to anybody. */
  lemma BeyondTheLimit(g: Graph, d: Depths, l: nat, pub: Option<string>, sys: Option<string>)
    requires Ready(g, d, l) && d[l] == 51
    ensures Resolve(g, d, l, pub, sys) == Result(NotFound, d)
  {
  }

  /** A lookup asks the first catalog of the list first. If that finds nothing and its counter is then beyond the limit,
      no other catalog is asked. */
  lemma FirstCatalogAnswers(g: Graph, d: Depths, c: nat, pub: Option<string>, sys: Option<string>, k: nat)
    requires Ready(g, d, c) && k < |g[c]| && g[c][k].kind == Catalog && g[c][k].children.Some?
    requires forall j :: 0 <= j < k ==> !(g[c][j].kind == Catalog && g[c][j].children.Some?)
    ensures var l := g[c][k].children.value; var r := Resolve(g, d, l, pub, sys);
      && (r.answer != NotFound || r.depths[l] == 51 ==> TryCatalogs(g, d, c, 0, pub, sys) == r)
      && (r.answer == NotFound && (forall j :: k < j < |g[c]| ==> !(g[c][j].kind == Catalog && g[c][j].children.Some?)) ==>
            TryCatalogs(g, d, c, 0, pub, sys) == r)
  {
    NoCatalogBefore(g, d, c, 0, k, pub, sys);
    var r := Resolve(g, d, g[c][k].children.value, pub, sys);
    hide Resolve;
    if forall j :: k < j < |g[c]| ==> !(g[c][j].kind == Catalog && g[c][j].children.Some?) {
      NoCatalogBefore(g, r.depths, c, k + 1, |g[c]|, pub, sys);
    }
  }

  /** So a list whose first catalog is beyond the limit answers nothing, whatever it is asked. */
  lemma SilencedListAnswersNothing(g: Graph, d: Depths, c: nat, ids: Ids, k: nat)
    requires Ready(g, d, c) && k < |g[c]| && g[c][k].kind == Catalog && g[c][k].children.Some?
    requires forall j :: 0 <= j < k ==> !(g[c][j].kind == Catalog && g[c][j].children.Some?)
    requires d[g[c][k].children.value] == 51
    ensures ResolveList(g, d, c, ids.pub, ids.sys) == Result(NotFound, d)
  {
    if ids != Ids(None, None) {
      var r := Prepare(ids);
      CatalogCycles.ListAsksPrepared(g, d, c, ids);
      FirstCatalogAnswers(g, d, c, r.pub, r.sys, k);
      BeyondTheLimit(g, d, g[c][k].children.value, r.pub, r.sys);
      hide ResolveList, TryCatalogs, Resolve, Prepare;
    }
  }

  lemma {:induction false} NoCatalogBefore(g: Graph, d: Depths, c: nat, i: nat, k: nat, pub: Option<string>, sys: Option<string>)
    requires Ready(g, d, c) && i <= k <= |g[c]|
    requires forall j :: i <= j < k ==> !(g[c][j].kind == Catalog && g[c][j].children.Some?)
    ensures TryCatalogs(g, d, c, i, pub, sys) == TryCatalogs(g, d, c, k, pub, sys)
    decreases k - i
  {
    if i < k {
      NoCatalogBefore(g, d, c, i + 1, k, pub, sys);
    }
  }
}
