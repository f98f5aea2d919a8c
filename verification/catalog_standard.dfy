/** The resolution rules of section 7.1 of OASIS XML Catalogs, and exactly when a list of entries makes catalog.c follow
    them. */
module CatalogStandard {
  import opened Basics
  import opened CatalogGraph
  import opened CatalogPrecedence
  import opened CatalogIdentifiers
  import ListSpec

  // ---- the entries to ask, in order ----

  function PrefixLen(list: seq<Entry>, i: nat): nat {
    if i < |list| && list[i].name.Some? then |list[i].name.value| else 0
  }

  /** The longer prefix comes first. */
  function LongerFirst(list: seq<Entry>): ListSpec.Compare<nat> {
    (i: nat, j: nat) => PrefixLen(list, j) - PrefixLen(list, i)
  }

  /** A delegate that is considered; without a system identifier those of either preference are. */
  predicate Considered(e: Entry, kind: Kind, id: string, all: bool) {
    e.kind == kind && Begins(id, e.name) && (kind == DelegatePublic ==> all || e.preferPublic)
  }

  function Matching(list: seq<Entry>, kind: Kind, id: string, all: bool): seq<nat> {
    if list == [] then []
    else
      var n := |list| - 1;
      Matching(list[..n], kind, id, all) + if Considered(list[n], kind, id, all) then [n] else []
  }

  function NextEntries(list: seq<Entry>): seq<nat> {
    if list == [] then []
    else
      var n := |list| - 1;
      NextEntries(list[..n]) + if list[n].kind == NextCatalog then [n] else []
  }

  /** The delegates by decreasing length of the prefix that matches */
  function StandardOrder(list: seq<Entry>, kind: Kind, id: string, all: bool): seq<nat> {
    ListSpec.SortTwice(LongerFirst(list), Matching(list, kind, id, all))
  }

  /** The first public entry of this name that is considered */
  function FirstAllowed(list: seq<Entry>, id: string, all: bool): (k: nat)
    ensures k <= |list|
    ensures k < |list| ==> list[k].kind == Public && list[k].name == Some(id) && (all || list[k].preferPublic)
    ensures forall j :: 0 <= j < k ==> !(list[j].kind == Public && list[j].name == Some(id) && (all || list[j].preferPublic))
  {
    if list == [] then 0
    else if list[0].kind == Public && list[0].name == Some(id) && (all || list[0].preferPublic) then 0
    else 1 + FirstAllowed(list[1..], id, all)
  }

  // ---- rewriting ----

  /** A rewrite rule whose start string is a prefix of the identifier; the empty string is one of every identifier. */
  predicate RewritesAny(e: Entry, id: string) {
    e.kind == RewriteSystem && e.name.Some? && e.name.value <= id
  }

  /** The rule with the longest start string, the first of them if several are as long */
  function LongestStart(list: seq<Entry>, id: string): (best: Option<nat>)
    ensures best.Some? ==> best.value < |list| && RewritesAny(list[best.value], id)
  {
    if list == [] then None
    else
      var n := |list| - 1;
      var best := LongestStart(list[..n], id);
      if RewritesAny(list[n], id) && (best.None? || |list[n].name.value| > |list[best.value].name.value|) then Some(n)
      else best
  }

  lemma {:induction false} LongestStartIsLongest(list: seq<Entry>, id: string)
    ensures LongestStart(list, id).None? ==> forall j :: 0 <= j < |list| ==> !RewritesAny(list[j], id)
    ensures LongestStart(list, id).Some? ==>
      var k := LongestStart(list, id).value;
      && (forall j :: 0 <= j < |list| && RewritesAny(list[j], id) ==> |list[j].name.value| <= |list[k].name.value|)
      && (forall j :: 0 <= j < k && RewritesAny(list[j], id) ==> |list[j].name.value| < |list[k].name.value|)
  {
    if list != [] {
      LongestStartIsLongest(list[..|list| - 1], id);
    }
  }

  function StandardRewritten(e: Entry, id: string): Answer
    requires RewritesAny(e, id)
  {
    if e.url.None? then NotFound else Uri(e.url.value + id[|e.name.value|..])
  }

  /** Steps 2 and 3 of section 7.1: an exact system match, else the longest rewrite */
  function StandardDirect(list: seq<Entry>, ids: Ids): Option<Answer> {
    if ids.sys.None? then None
    else if FirstExact(list, System, ids.sys.value) < |list| then
      Some(Dup(list[FirstExact(list, System, ids.sys.value)].url))
    else if LongestStart(list, ids.sys.value).Some? then
      Some(StandardRewritten(list[LongestStart(list, ids.sys.value).value], ids.sys.value))
    else None
  }

  /** The rules differ only where nothing but an empty start string applies. */
  lemma {:induction false} RewritesAlike(list: seq<Entry>, id: string)
    ensures BestRewrite(list, id).Some? ==> LongestStart(list, id) == BestRewrite(list, id)
    ensures BestRewrite(list, id).None? && LongestStart(list, id).Some? ==>
      list[LongestStart(list, id).value].name == Some("")
  {
    if list != [] {
      RewritesAlike(list[..|list| - 1], id);
    }
  }

  lemma DirectAlike(list: seq<Entry>, ids: Ids)
    ensures DirectAnswer(list, ids.pub, ids.sys).Some? ==> StandardDirect(list, ids) == DirectAnswer(list, ids.pub, ids.sys)
    ensures DirectAnswer(list, ids.pub, ids.sys).None? && StandardDirect(list, ids).Some? ==>
      ids.sys.Some? && LongestStart(list, ids.sys.value).Some?
      && list[LongestStart(list, ids.sys.value).value].name == Some("")
  {
    if ids.sys.Some? {
      RewritesAlike(list, ids.sys.value);
    }
    hide LongestStart, BestRewrite, FirstExact;
  }

  // ---- one list, given what the catalogs its entries refer to answer ----

  /** The first answer in this order */
  function FirstSaid(said: seq<Answer>, order: seq<nat>): Answer {
    if order == [] then NotFound
    else
      var a := FirstSaid(said, order[..|order| - 1]);
      var n := order[|order| - 1];
      if a != NotFound then a else if n < |said| then said[n] else NotFound
  }

  /** Delegation is final. */
  function Delegated(a: Answer): Answer {
    if a == NotFound then Cut else a
  }

  /** Section 7.1: an exact system match, the longest rewrite, the system delegates by decreasing prefix; then the public
      entries and delegates, of which only the preferred ones count beside a system identifier; then further catalogs. */
  function StandardAnswer(list: seq<Entry>, ids: Ids, said: seq<Answer>): Answer {
    if StandardDirect(list, ids).Some? then StandardDirect(list, ids).value
    else if ids.sys.Some? && StandardOrder(list, DelegateSystem, ids.sys.value, true) != [] then
      Delegated(FirstSaid(said, StandardOrder(list, DelegateSystem, ids.sys.value, true)))
    else if ids.pub.Some? && FirstAllowed(list, ids.pub.value, ids.sys.None?) < |list| then
      Dup(list[FirstAllowed(list, ids.pub.value, ids.sys.None?)].url)
    else if ids.pub.Some? && StandardOrder(list, DelegatePublic, ids.pub.value, ids.sys.None?) != [] then
      Delegated(FirstSaid(said, StandardOrder(list, DelegatePublic, ids.pub.value, ids.sys.None?)))
    else if ids == Ids(None, None) then NotFound
    else FirstSaid(said, NextEntries(list))
  }

  /** What catalog.c answers */
  function CodeAnswer(list: seq<Entry>, ids: Ids, said: seq<Answer>): Answer {
    if DirectAnswer(list, ids.pub, ids.sys).Some? then DirectAnswer(list, ids.pub, ids.sys).value
    else if ids.sys.Some? && Matching(list, DelegateSystem, ids.sys.value, false) != [] then
      Delegated(FirstSaid(said, Matching(list, DelegateSystem, ids.sys.value, false)))
    else if ids.pub.Some? && FirstExact(list, Public, ids.pub.value) < |list| then
      Dup(list[FirstExact(list, Public, ids.pub.value)].url)
    else if ids.pub.Some? && Matching(list, DelegatePublic, ids.pub.value, false) != [] then
      Delegated(FirstSaid(said, Matching(list, DelegatePublic, ids.pub.value, false)))
    else if ids == Ids(None, None) then NotFound
    else FirstSaid(said, NextEntries(list))
  }

  /** Entries of one kind and URL refer to the same catalog, so they get the same answer. */
  ghost predicate Coherent(list: seq<Entry>, said: seq<Answer>) {
    |said| == |list| && forall i, j :: 0 <= i < |list| && 0 <= j < |list| && SameSource(list[i], list[j]) ==> said[i] == said[j]
  }

  // ---- the condition ----

  function Url(list: seq<Entry>, i: nat): Option<string> {
    if i < |list| then list[i].url else None
  }

  /** The catalogs asked, each where it comes first */
  function Firsts(list: seq<Entry>, order: seq<nat>): seq<Option<string>> {
    if order == [] then []
    else
      var f := Firsts(list, order[..|order| - 1]);
      var u := Url(list, order[|order| - 1]);
      if u in f then f else f + [u]
  }

  /** The same delegated catalogs are asked in the same order. */
  predicate SameTries(list: seq<Entry>, kind: Kind, id: string, all: bool) {
    Firsts(list, Matching(list, kind, id, false)) == Firsts(list, StandardOrder(list, kind, id, all))
  }

  /** The first public match has the URL of the first one considered; if none is, it has no URL and nothing follows it.
      Where there is no match the delegates are asked in the right order, and all that are considered. */
  predicate PublicConforms(list: seq<Entry>, id: string, all: bool) {
    var k, a := FirstExact(list, Public, id), FirstAllowed(list, id, all);
    if k < |list| then
      if a < |list| then list[k].url == list[a].url
      else list[k].url.None? && Matching(list, DelegatePublic, id, all) == [] && NextEntries(list) == []
    else SameTries(list, DelegatePublic, id, all)
  }

  /** Where only a rewrite rule with an empty start string applies, catalog.c passes it over: it must find nothing else but
      a public entry with the very URL `a` that the rule gives, or nothing to ask if it gives none. */
  predicate RewriteConforms(list: seq<Entry>, ids: Ids, a: Answer)
    requires ids.sys.Some?
  {
    Matching(list, DelegateSystem, ids.sys.value, false) == [] &&
    if ids.pub.Some? && FirstExact(list, Public, ids.pub.value) < |list| then
      Dup(list[FirstExact(list, Public, ids.pub.value)].url) == a
    else
      (ids.pub.Some? ==> Matching(list, DelegatePublic, ids.pub.value, false) == []) && NextEntries(list) == []
      && a == NotFound
  }

  predicate Conforms(list: seq<Entry>, ids: Ids) {
    if DirectAnswer(list, ids.pub, ids.sys).Some? then true
    else if StandardDirect(list, ids).Some? then RewriteConforms(list, ids, StandardDirect(list, ids).value)
    else if ids.sys.Some? && Matching(list, DelegateSystem, ids.sys.value, true) != [] then
      SameTries(list, DelegateSystem, ids.sys.value, true)
    else ids.pub.Some? ==> PublicConforms(list, ids.pub.value, ids.sys.None?)
  }

  // ---- which entries match ----

  lemma {:induction false} MatchingIs(list: seq<Entry>, kind: Kind, id: string, all: bool)
    ensures forall i: nat :: i in Matching(list, kind, id, all) <==> i < |list| && Considered(list[i], kind, id, all)
  {
    if list != [] {
      MatchingIs(list[..|list| - 1], kind, id, all);
    }
  }

  lemma {:induction false} SameMatching(list: seq<Entry>, kind: Kind, id: string, all: bool)
    requires forall i :: 0 <= i < |list| ==> Considered(list[i], kind, id, all) == Considered(list[i], kind, id, false)
    ensures Matching(list, kind, id, all) == Matching(list, kind, id, false)
  {
    if list != [] {
      SameMatching(list[..|list| - 1], kind, id, all);
    }
  }

  lemma LongerFirstIsPreorder(list: seq<Entry>)
    ensures ListSpec.TotalPreorder(LongerFirst(list))
  {
  }

  lemma OrderIs(list: seq<Entry>, kind: Kind, id: string, all: bool)
    ensures forall i: nat :: i in StandardOrder(list, kind, id, all) <==> i < |list| && Considered(list[i], kind, id, all)
    ensures StandardOrder(list, kind, id, all) == [] <==> Matching(list, kind, id, all) == []
  {
    var s, t := Matching(list, kind, id, all), StandardOrder(list, kind, id, all);
    MatchingIs(list, kind, id, all);
    LongerFirstIsPreorder(list);
    ListSpec.SortIsStable(LongerFirst(list), s);
    assert |multiset(s)| == |s| && |multiset(t)| == |t|;
    forall i: nat ensures i in t <==> i in s {
      assert i in t <==> i in multiset(t);
    }
  }

  // ---- answers by URL ----

  ghost predicate OfKind(list: seq<Entry>, kind: Kind, order: seq<nat>) {
    forall i :: i in order ==> i < |list| && list[i].kind == kind
  }

  function Say(list: seq<Entry>, said: seq<Answer>, kind: Kind, u: Option<string>): Answer
    requires |list| <= |said|
  {
    if list == [] then NotFound
    else
      var n := |list| - 1;
      if list[n].kind == kind && list[n].url == u then said[n] else Say(list[..n], said, kind, u)
  }

  lemma {:induction false} SayIs(list: seq<Entry>, said: seq<Answer>, kind: Kind, i: nat)
    requires |list| <= |said| && i < |list| && list[i].kind == kind
    requires forall j :: 0 <= j < |list| && SameSource(list[i], list[j]) ==> said[i] == said[j]
    ensures Say(list, said, kind, list[i].url) == said[i]
  {
    var n := |list| - 1;
    if !(list[n].kind == kind && list[n].url == list[i].url) {
      SayIs(list[..n], said, kind, i);
    }
  }

  function FirstOf(list: seq<Entry>, said: seq<Answer>, kind: Kind, us: seq<Option<string>>): Answer
    requires |list| <= |said|
  {
    if us == [] then NotFound
    else
      var a := FirstOf(list, said, kind, us[..|us| - 1]);
      if a != NotFound then a else Say(list, said, kind, us[|us| - 1])
  }

  lemma {:induction false} NoneOf(list: seq<Entry>, said: seq<Answer>, kind: Kind, us: seq<Option<string>>)
    requires |list| <= |said| && FirstOf(list, said, kind, us) == NotFound
    ensures forall u :: u in us ==> Say(list, said, kind, u) == NotFound
  {
    if us != [] {
      NoneOf(list, said, kind, us[..|us| - 1]);
      assert us == us[..|us| - 1] + [us[|us| - 1]];
    }
  }

  lemma OfKindFront(list: seq<Entry>, kind: Kind, order: seq<nat>)
    requires OfKind(list, kind, order) && order != []
    ensures OfKind(list, kind, order[..|order| - 1]) && order[|order| - 1] in order
  {
    var front := order[..|order| - 1];
    forall i | i in front ensures i < |list| && list[i].kind == kind {
      assert i in order;
    }
  }

  /** The answer depends on the catalogs in the order they are first asked, and on nothing else. */
  lemma {:induction false} SaidByUrl(list: seq<Entry>, said: seq<Answer>, kind: Kind, order: seq<nat>)
    requires Coherent(list, said) && OfKind(list, kind, order)
    ensures FirstSaid(said, order) == FirstOf(list, said, kind, Firsts(list, order))
  {
    if order != [] {
      var n := |order| - 1;
      var i, f := order[n], Firsts(list, order[..n]);
      OfKindFront(list, kind, order);
      SaidByUrl(list, said, kind, order[..n]);
      SayIs(list, said, kind, i);
      if list[i].url in f {
        if FirstOf(list, said, kind, f) == NotFound {
          NoneOf(list, said, kind, f);
        }
      } else {
        assert (f + [list[i].url])[..|f|] == f;
      }
    }
  }

  predicate Distinct<T(==)>(s: seq<T>) {
    forall i, j :: 0 <= i < j < |s| ==> s[i] != s[j]
  }

  /** Each URL is that of an entry of the kind. */
  ghost predicate Known(list: seq<Entry>, kind: Kind, us: seq<Option<string>>) {
    forall u :: u in us ==> exists i :: 0 <= i < |list| && list[i].kind == kind && list[i].url == u
  }

  lemma {:induction false} FirstsAreDistinct(list: seq<Entry>, kind: Kind, order: seq<nat>)
    requires OfKind(list, kind, order)
    ensures Distinct(Firsts(list, order)) && Known(list, kind, Firsts(list, order))
    ensures Firsts(list, order) == [] <==> order == []
  {
    if order != [] {
      var i := order[|order| - 1];
      OfKindFront(list, kind, order);
      FirstsAreDistinct(list, kind, order[..|order| - 1]);
      assert list[i].kind == kind && list[i].url == Url(list, i);
    }
  }

  lemma {:induction false} FirstDifference(us: seq<Option<string>>, vs: seq<Option<string>>) returns (k: nat)
    requires us != vs
    ensures k <= |us| && k <= |vs| && us[..k] == vs[..k]
    ensures (k < |us| || k < |vs|) && (k < |us| && k < |vs| ==> us[k] != vs[k])
  {
    if us == [] || vs == [] || us[0] != vs[0] {
      k := 0;
    } else {
      assert us == [us[0]] + us[1..] && vs == [vs[0]] + vs[1..];
      k := FirstDifference(us[1..], vs[1..]);
      k := k + 1;
      assert us[..k] == [us[0]] + us[1..][..k - 1] && vs[..k] == [vs[0]] + vs[1..][..k - 1];
    }
  }

  lemma {:induction false} FirstOfAt(list: seq<Entry>, said: seq<Answer>, kind: Kind, us: seq<Option<string>>, k: nat)
    requires |list| <= |said| && k <= |us| && forall i :: 0 <= i < k ==> Say(list, said, kind, us[i]) == NotFound
    requires k < |us| ==> Say(list, said, kind, us[k]) != NotFound
    ensures FirstOf(list, said, kind, us) == if k < |us| then Say(list, said, kind, us[k]) else NotFound
  {
    if us != [] {
      var n := |us| - 1;
      FirstOfAt(list, said, kind, us[..n], if k < |us| then k else n);
    }
  }

  /** The answers "x" and "y" for two URLs, and none for any other */
  function Witness(list: seq<Entry>, x: Option<string>, y: Option<string>): seq<Answer> {
    seq(|list|, i requires 0 <= i < |list| =>
      if list[i].url == x then Uri("x") else if list[i].url == y then Uri("y") else NotFound)
  }

  lemma WitnessSays(list: seq<Entry>, kind: Kind, us: seq<Option<string>>, x: Option<string>, y: Option<string>)
    requires Known(list, kind, us)
    ensures Coherent(list, Witness(list, x, y))
    ensures forall u :: u in us ==>
      Say(list, Witness(list, x, y), kind, u) == if u == x then Uri("x") else if u == y then Uri("y") else NotFound
  {
    var said := Witness(list, x, y);
    forall u | u in us
      ensures Say(list, said, kind, u) == if u == x then Uri("x") else if u == y then Uri("y") else NotFound
    {
      var i :| 0 <= i < |list| && list[i].kind == kind && list[i].url == u;
      SayIs(list, said, kind, i);
    }
  }

  /** Different orders can be told apart by what the catalogs answer. */
  lemma Distinguish(list: seq<Entry>, kind: Kind, us: seq<Option<string>>, vs: seq<Option<string>>)
    returns (said: seq<Answer>)
    requires us != vs && Distinct(us) && Distinct(vs) && Known(list, kind, us) && Known(list, kind, vs)
    ensures Coherent(list, said) && FirstOf(list, said, kind, us) != FirstOf(list, said, kind, vs)
    ensures FirstOf(list, said, kind, us) != Cut && FirstOf(list, said, kind, vs) != Cut
  {
    var k := FirstDifference(us, vs);
    var x, y := if k < |us| then us[k] else vs[k], if k < |vs| then vs[k] else us[k];
    said := Witness(list, x, y);
    WitnessSays(list, kind, us, x, y);
    WitnessSays(list, kind, vs, x, y);
    forall i | 0 <= i < k ensures Say(list, said, kind, us[i]) == NotFound && us[i] == vs[i] {
      assert us[..k][i] == vs[..k][i] && us[i] in us && vs[i] in vs;
    }
    hide Say, Witness;
    assert k < |us| ==> us[k] in us;
    assert k < |vs| ==> vs[k] in vs;
    FirstOfAt(list, said, kind, us, k);
    FirstOfAt(list, said, kind, vs, k);
  }

  // ---- one step: exactly when it is that of the standard ----

  predicate NotDirect(list: seq<Entry>, ids: Ids) {
    DirectAnswer(list, ids.pub, ids.sys).None? && StandardDirect(list, ids).None?
  }

  ghost predicate StepMeets(list: seq<Entry>, ids: Ids) {
    forall said :: Coherent(list, said) ==> CodeAnswer(list, ids, said) == StandardAnswer(list, ids, said)
  }

  /** Two orders of delegates give the same answers, whatever is said, exactly when the catalogs come in the same order. */
  lemma OrdersAgree(list: seq<Entry>, kind: Kind, us: seq<nat>, vs: seq<nat>, said: seq<Answer>)
    requires OfKind(list, kind, us) && OfKind(list, kind, vs) && Coherent(list, said)
    requires Firsts(list, us) == Firsts(list, vs)
    ensures FirstSaid(said, us) == FirstSaid(said, vs)
  {
    SaidByUrl(list, said, kind, us);
    SaidByUrl(list, said, kind, vs);
  }

  lemma OrdersDiffer(list: seq<Entry>, kind: Kind, us: seq<nat>, vs: seq<nat>) returns (said: seq<Answer>)
    requires OfKind(list, kind, us) && OfKind(list, kind, vs) && Firsts(list, us) != Firsts(list, vs)
    ensures Coherent(list, said) && Delegated(FirstSaid(said, us)) != Delegated(FirstSaid(said, vs))
  {
    FirstsAreDistinct(list, kind, us);
    FirstsAreDistinct(list, kind, vs);
    said := Distinguish(list, kind, Firsts(list, us), Firsts(list, vs));
    SaidByUrl(list, said, kind, us);
    SaidByUrl(list, said, kind, vs);
  }

  /** The same answer from every catalog */
  function Alike(list: seq<Entry>, a: Answer): seq<Answer> {
    seq(|list|, _ => a)
  }

  lemma {:induction false} AlikeSays(list: seq<Entry>, a: Answer, order: seq<nat>)
    requires forall i :: i in order ==> i < |list|
    ensures Coherent(list, Alike(list, a))
    ensures FirstSaid(Alike(list, a), order) == if order == [] then NotFound else a
  {
    if order != [] {
      var n := |order| - 1;
      assert order[n] in order;
      forall j | j in order[..n] ensures j in order {
      }
      AlikeSays(list, a, order[..n]);
    }
  }

  lemma {:induction false} NextEntriesInRange(list: seq<Entry>)
    ensures forall i :: i in NextEntries(list) ==> i < |list|
  {
    if list != [] {
      NextEntriesInRange(list[..|list| - 1]);
    }
  }

  lemma OrdersOfKind(list: seq<Entry>, kind: Kind, id: string, all: bool)
    ensures OfKind(list, kind, Matching(list, kind, id, all)) && OfKind(list, kind, StandardOrder(list, kind, id, all))
    ensures StandardOrder(list, kind, id, all) == [] <==> Matching(list, kind, id, all) == []
  {
    MatchingIs(list, kind, id, all);
    OrderIs(list, kind, id, all);
    hide Matching, StandardOrder;
  }

  lemma FewerMatch(list: seq<Entry>, kind: Kind, id: string, all: bool)
    ensures Matching(list, kind, id, all) == [] ==> Matching(list, kind, id, false) == []
  {
    MatchingIs(list, kind, id, all);
    MatchingIs(list, kind, id, false);
    var few := Matching(list, kind, id, false);
    hide Matching;
    assert few != [] ==> few[0] in few && few[0] in Matching(list, kind, id, all);
  }

  /** The same catalogs are asked only if there are some for both. */
  lemma BothOrNone(list: seq<Entry>, kind: Kind, id: string, all: bool)
    requires SameTries(list, kind, id, all)
    ensures Matching(list, kind, id, false) == [] <==> Matching(list, kind, id, all) == []
  {
    OrdersOfKind(list, kind, id, all);
    OrdersOfKind(list, kind, id, false);
    hide Matching, StandardOrder;
    FirstsAreDistinct(list, kind, Matching(list, kind, id, false));
    FirstsAreDistinct(list, kind, StandardOrder(list, kind, id, all));
  }

  lemma DelegateOrders(list: seq<Entry>, kind: Kind, id: string, all: bool)
    ensures OfKind(list, kind, Matching(list, kind, id, false)) && OfKind(list, kind, StandardOrder(list, kind, id, all))
    ensures StandardOrder(list, kind, id, all) == [] <==> Matching(list, kind, id, all) == []
    ensures Matching(list, kind, id, all) == [] ==> Matching(list, kind, id, false) == []
    ensures kind != DelegatePublic ==> Matching(list, kind, id, all) == Matching(list, kind, id, false)
    ensures SameTries(list, kind, id, all) ==> (Matching(list, kind, id, false) == [] <==> Matching(list, kind, id, all) == [])
  {
    OrdersOfKind(list, kind, id, all);
    OrdersOfKind(list, kind, id, false);
    FewerMatch(list, kind, id, all);
    if kind != DelegatePublic {
      SameMatching(list, kind, id, all);
    }
    hide Matching, StandardOrder, OfKind;
    if SameTries(list, kind, id, all) {
      BothOrNone(list, kind, id, all);
    }
  }

  lemma SystemStep(list: seq<Entry>, ids: Ids)
    requires NotDirect(list, ids) && ids.sys.Some?
    requires Matching(list, DelegateSystem, ids.sys.value, true) != []
    ensures StepMeets(list, ids) <==> SameTries(list, DelegateSystem, ids.sys.value, true)
  {
    var id := ids.sys.value;
    DelegateOrders(list, DelegateSystem, id, true);
    hide Matching, StandardOrder, Firsts, FirstSaid, DirectAnswer, StandardDirect, StandardDirect;
    var us, vs := Matching(list, DelegateSystem, id, false), StandardOrder(list, DelegateSystem, id, true);
    if SameTries(list, DelegateSystem, id, true) {
      forall said | Coherent(list, said)
        ensures CodeAnswer(list, ids, said) == StandardAnswer(list, ids, said)
      {
        OrdersAgree(list, DelegateSystem, us, vs, said);
      }
    } else {
      var said := OrdersDiffer(list, DelegateSystem, us, vs);
      assert CodeAnswer(list, ids, said) != StandardAnswer(list, ids, said);
    }
  }

  /** The steps for the public identifier, once the system identifier has settled nothing */
  lemma PublicStep(list: seq<Entry>, ids: Ids)
    requires NotDirect(list, ids) && ids.pub.Some?
    requires ids.sys.Some? ==> Matching(list, DelegateSystem, ids.sys.value, true) == []
    requires FirstExact(list, Public, ids.pub.value) == |list|
    ensures StepMeets(list, ids) <==> SameTries(list, DelegatePublic, ids.pub.value, ids.sys.None?)
  {
    var id, all := ids.pub.value, ids.sys.None?;
    if ids.sys.Some? {
      DelegateOrders(list, DelegateSystem, ids.sys.value, true);
    }
    DelegateOrders(list, DelegatePublic, id, all);
    FirstExactIsFirst(list, Public, id);
    assert FirstAllowed(list, id, all) == |list|;
    hide Matching, StandardOrder, Firsts, FirstSaid, DirectAnswer, StandardDirect, FirstExact, FirstAllowed;
    var us, vs := Matching(list, DelegatePublic, id, false), StandardOrder(list, DelegatePublic, id, all);
    if SameTries(list, DelegatePublic, id, all) {
      forall said | Coherent(list, said)
        ensures CodeAnswer(list, ids, said) == StandardAnswer(list, ids, said)
      {
        OrdersAgree(list, DelegatePublic, us, vs, said);
      }
    } else if us == [] {
      NextEntriesInRange(list);
      AlikeSays(list, NotFound, NextEntries(list));
      AlikeSays(list, NotFound, vs);
      var said := Alike(list, NotFound);
      assert CodeAnswer(list, ids, said) != StandardAnswer(list, ids, said);
    } else {
      var said := OrdersDiffer(list, DelegatePublic, us, vs);
      assert CodeAnswer(list, ids, said) != StandardAnswer(list, ids, said);
    }
  }

  /** The same where catalog.c has found a public entry */
  lemma PublicEntryMeets(list: seq<Entry>, ids: Ids)
    requires NotDirect(list, ids) && ids.pub.Some?
    requires ids.sys.Some? ==> Matching(list, DelegateSystem, ids.sys.value, true) == []
    requires FirstExact(list, Public, ids.pub.value) < |list| && PublicConforms(list, ids.pub.value, ids.sys.None?)
    ensures StepMeets(list, ids)
  {
    OrdersOfKind(list, DelegatePublic, ids.pub.value, ids.sys.None?);
    hide Matching, StandardOrder, Firsts, FirstSaid, FirstExact, FirstAllowed, NextEntries, CodeAnswer, StandardAnswer,
         DirectAnswer, StandardDirect, Considered;
    forall said | Coherent(list, said)
      ensures CodeAnswer(list, ids, said) == StandardAnswer(list, ids, said)
    {
      PublicAnswers(list, ids, said);
      NothingSaid(said);
    }
  }

  lemma PublicEntryDiffers(list: seq<Entry>, ids: Ids)
    requires NotDirect(list, ids) && ids.pub.Some?
    requires ids.sys.Some? ==> Matching(list, DelegateSystem, ids.sys.value, true) == []
    requires FirstExact(list, Public, ids.pub.value) < |list| && !PublicConforms(list, ids.pub.value, ids.sys.None?)
    ensures !StepMeets(list, ids)
  {
    PublicAlike(list, ids, NotFound);
    PublicAlike(list, ids, Uri("x"));
    hide Matching, FirstExact, FirstAllowed, NextEntries, CodeAnswer, StandardAnswer, DirectAnswer, Alike;
    assert Coherent(list, Alike(list, NotFound)) && Coherent(list, Alike(list, Uri("x")));
  }

  /** The two answers, if all catalogs referred to say `a` */
  lemma PublicAlike(list: seq<Entry>, ids: Ids, a: Answer)
    requires NotDirect(list, ids) && ids.pub.Some?
    requires ids.sys.Some? ==> Matching(list, DelegateSystem, ids.sys.value, true) == []
    requires FirstExact(list, Public, ids.pub.value) < |list|
    ensures var id, all := ids.pub.value, ids.sys.None?;
      var l := FirstAllowed(list, id, all);
      Coherent(list, Alike(list, a)) &&
      CodeAnswer(list, ids, Alike(list, a)) == Dup(list[FirstExact(list, Public, id)].url) &&
      StandardAnswer(list, ids, Alike(list, a)) ==
        if l < |list| then Dup(list[l].url)
        else if Matching(list, DelegatePublic, id, all) != [] then Delegated(a)
        else if NextEntries(list) != [] then a else NotFound
  {
    var id, all := ids.pub.value, ids.sys.None?;
    OrdersOfKind(list, DelegatePublic, id, all);
    NextEntriesInRange(list);
    hide Matching, StandardOrder, FirstSaid, FirstExact, FirstAllowed, NextEntries, CodeAnswer, StandardAnswer,
         DirectAnswer, StandardDirect, Alike, Coherent;
    AlikeSays(list, a, StandardOrder(list, DelegatePublic, id, all));
    AlikeSays(list, a, NextEntries(list));
    PublicAnswers(list, ids, Alike(list, a));
  }

  lemma PublicAnswers(list: seq<Entry>, ids: Ids, said: seq<Answer>)
    requires NotDirect(list, ids) && ids.pub.Some?
    requires ids.sys.Some? ==> Matching(list, DelegateSystem, ids.sys.value, true) == []
    requires FirstExact(list, Public, ids.pub.value) < |list|
    ensures var id, all := ids.pub.value, ids.sys.None?;
      var a, vs := FirstAllowed(list, id, all), StandardOrder(list, DelegatePublic, id, all);
      CodeAnswer(list, ids, said) == Dup(list[FirstExact(list, Public, id)].url) &&
      StandardAnswer(list, ids, said) ==
        if a < |list| then Dup(list[a].url)
        else if vs != [] then Delegated(FirstSaid(said, vs))
        else FirstSaid(said, NextEntries(list))
  {
    if ids.sys.Some? {
      DelegateOrders(list, DelegateSystem, ids.sys.value, true);
    }
    hide Matching, StandardOrder, FirstSaid, FirstExact, FirstAllowed, NextEntries, DirectAnswer, StandardDirect;
  }

  lemma NothingSaid(said: seq<Answer>)
    ensures FirstSaid(said, []) == NotFound
  {
  }

  /** The step where only an empty start string applies */
  lemma RewriteStep(list: seq<Entry>, ids: Ids)
    requires DirectAnswer(list, ids.pub, ids.sys).None? && StandardDirect(list, ids).Some?
    ensures ids.sys.Some? && (StepMeets(list, ids) <==> RewriteConforms(list, ids, StandardDirect(list, ids).value))
  {
    var a := StandardDirect(list, ids).value;
    NextEntriesInRange(list);
    OrdersOfKind(list, DelegateSystem, ids.sys.value, false);
    if ids.pub.Some? {
      OrdersOfKind(list, DelegatePublic, ids.pub.value, false);
    }
    RewriteAlike(list, ids, NotFound);
    RewriteAlike(list, ids, Uri("x"));
    assert a != Cut;
    hide Matching, FirstExact, NextEntries, CodeAnswer, DirectAnswer, StandardDirect, Alike;
    if RewriteConforms(list, ids, a) {
      forall said | Coherent(list, said)
        ensures CodeAnswer(list, ids, said) == StandardAnswer(list, ids, said)
      {
        RewriteAnswers(list, ids, said);
        NothingSaid(said);
      }
    }
    assert Coherent(list, Alike(list, NotFound)) && Coherent(list, Alike(list, Uri("x")));
  }

  lemma RewriteAnswers(list: seq<Entry>, ids: Ids, said: seq<Answer>)
    requires DirectAnswer(list, ids.pub, ids.sys).None? && ids.sys.Some?
    ensures CodeAnswer(list, ids, said) ==
      if Matching(list, DelegateSystem, ids.sys.value, false) != [] then
        Delegated(FirstSaid(said, Matching(list, DelegateSystem, ids.sys.value, false)))
      else if ids.pub.Some? && FirstExact(list, Public, ids.pub.value) < |list| then
        Dup(list[FirstExact(list, Public, ids.pub.value)].url)
      else if ids.pub.Some? && Matching(list, DelegatePublic, ids.pub.value, false) != [] then
        Delegated(FirstSaid(said, Matching(list, DelegatePublic, ids.pub.value, false)))
      else FirstSaid(said, NextEntries(list))
  {
    hide Matching, FirstSaid, FirstExact, NextEntries, DirectAnswer;
  }

  lemma RewriteAlike(list: seq<Entry>, ids: Ids, a: Answer)
    requires DirectAnswer(list, ids.pub, ids.sys).None? && ids.sys.Some?
    ensures Coherent(list, Alike(list, a)) && CodeAnswer(list, ids, Alike(list, a)) ==
      if Matching(list, DelegateSystem, ids.sys.value, false) != [] then Delegated(a)
      else if ids.pub.Some? && FirstExact(list, Public, ids.pub.value) < |list| then
        Dup(list[FirstExact(list, Public, ids.pub.value)].url)
      else if ids.pub.Some? && Matching(list, DelegatePublic, ids.pub.value, false) != [] then Delegated(a)
      else if NextEntries(list) != [] then a else NotFound
  {
    NextEntriesInRange(list);
    OrdersOfKind(list, DelegateSystem, ids.sys.value, false);
    if ids.pub.Some? {
      OrdersOfKind(list, DelegatePublic, ids.pub.value, false);
    }
    hide Matching, FirstSaid, FirstExact, NextEntries, CodeAnswer, DirectAnswer, Alike, Coherent;
    AlikeSays(list, a, Matching(list, DelegateSystem, ids.sys.value, false));
    AlikeSays(list, a, NextEntries(list));
    if ids.pub.Some? {
      AlikeSays(list, a, Matching(list, DelegatePublic, ids.pub.value, false));
    }
    RewriteAnswers(list, ids, Alike(list, a));
  }

  /** Whatever the catalogs referred to answer, the list is resolved as section 7.1 says exactly when it conforms. */
  lemma StepMeetsExactlyWhen(list: seq<Entry>, ids: Ids)
    ensures StepMeets(list, ids) <==> Conforms(list, ids)
  {
    if ids.sys.Some? {
      DelegateOrders(list, DelegateSystem, ids.sys.value, true);
    }
    DirectAlike(list, ids);
    hide Matching, StandardOrder, Firsts, FirstSaid, DirectAnswer, StandardDirect, FirstExact, FirstAllowed, NextEntries,
         PublicConforms, SameTries, RewriteConforms;
    if DirectAnswer(list, ids.pub, ids.sys).None? {
      if StandardDirect(list, ids).Some? {
        RewriteStep(list, ids);
      } else if ids.sys.Some? && Matching(list, DelegateSystem, ids.sys.value, true) != [] {
        SystemStep(list, ids);
      } else if ids.pub.Some? {
        if FirstExact(list, Public, ids.pub.value) < |list| {
          if PublicConforms(list, ids.pub.value, ids.sys.None?) {
            PublicEntryMeets(list, ids);
          } else {
            PublicEntryDiffers(list, ids);
          }
        } else {
          PublicStep(list, ids);
          NoPublicEntry(list, ids.pub.value, ids.sys.None?);
        }
      }
    }
  }

  lemma NoPublicEntry(list: seq<Entry>, id: string, all: bool)
    requires FirstExact(list, Public, id) == |list|
    ensures PublicConforms(list, id, all) == SameTries(list, DelegatePublic, id, all)
  {
  }

  // ---- the condition, for delegates that name different catalogs ----

  predicate LongestFirst(list: seq<Entry>, order: seq<nat>) {
    forall i, j :: 0 <= i < j < |order| ==> PrefixLen(list, order[i]) >= PrefixLen(list, order[j])
  }

  /** No two of them name the same catalog. */
  ghost predicate DifferentUrls(list: seq<Entry>, order: seq<nat>) {
    forall i, j :: i in order && j in order && Url(list, i) == Url(list, j) ==> i == j
  }

  function Urls(list: seq<Entry>, order: seq<nat>): (us: seq<Option<string>>)
    ensures |us| == |order| && forall i :: 0 <= i < |us| ==> us[i] == Url(list, order[i])
  {
    seq(|order|, i requires 0 <= i < |order| => Url(list, order[i]))
  }

  lemma {:induction false} DifferentFirsts(list: seq<Entry>, order: seq<nat>)
    requires DifferentUrls(list, order) && Distinct(order)
    ensures Firsts(list, order) == Urls(list, order)
  {
    if order != [] {
      var n := |order| - 1;
      var front := order[..n];
      forall i | i in front ensures i in order {
      }
      DifferentFirsts(list, front);
      var f := Urls(list, front);
      forall k | 0 <= k < n ensures f[k] != Url(list, order[n]) {
        assert f[k] == Url(list, order[k]) && order[k] in order && order[n] in order;
      }
      assert Urls(list, order) == f + [Url(list, order[n])];
    }
  }

  lemma SortedWhenLongestFirst(list: seq<Entry>, order: seq<nat>)
    ensures ListSpec.SortTwice(LongerFirst(list), order) == order <==> LongestFirst(list, order)
  {
    var cmp := LongerFirst(list);
    LongerFirstIsPreorder(list);
    ListSpec.SortIsTheStableSort(cmp, order, order);
    assert ListSpec.SameRuns(cmp, order, order);
    if ListSpec.Sorted(cmp, order) {
      forall i, j | 0 <= i < j < |order| ensures PrefixLen(list, order[i]) >= PrefixLen(list, order[j]) {
        assert cmp(order[i], order[j]) <= 0;
      }
    }
  }

  predicate Ascending(s: seq<nat>) {
    forall i, j :: 0 <= i < j < |s| ==> s[i] < s[j]
  }

  lemma {:induction false} MatchingAscends(list: seq<Entry>, kind: Kind, id: string, all: bool)
    ensures Ascending(Matching(list, kind, id, all))
  {
    if list != [] {
      var n := |list| - 1;
      var m := Matching(list[..n], kind, id, all);
      MatchingAscends(list[..n], kind, id, all);
      MatchingIs(list[..n], kind, id, all);
      forall i | 0 <= i < |m| ensures m[i] < n {
        assert m[i] in m;
      }
      assert Ascending(m + [n]);
      assert m + [] == m;
    }
  }

  lemma PermutedDistinct(s: seq<nat>, t: seq<nat>)
    requires multiset(s) == multiset(t) && Distinct(s)
    ensures Distinct(t)
  {
    forall i, j | 0 <= i < j < |t| ensures t[i] != t[j] {
      if t[i] == t[j] {
        var x := t[i];
        assert t == t[..j] + t[j..] && x in t[..j] && x in t[j..];
        assert multiset(t) == multiset(t[..j]) + multiset(t[j..]);
        assert multiset(s)[x] >= 2;
        OnlyOnce(s, x);
        assert false;
      }
    }
  }

  lemma {:induction false} OnlyOnce(s: seq<nat>, x: nat)
    requires Distinct(s)
    ensures multiset(s)[x] <= 1
  {
    if s != [] {
      assert s == [s[0]] + s[1..];
      OnlyOnce(s[1..], x);
      if s[0] == x {
        assert x !in s[1..];
      }
    }
  }

  lemma SameIndices(list: seq<Entry>, us: seq<nat>, vs: seq<nat>, order: seq<nat>)
    requires DifferentUrls(list, order) && Urls(list, us) == Urls(list, vs)
    requires (forall i :: i in us ==> i in order) && (forall i :: i in vs ==> i in order)
    ensures us == vs
  {
    assert |us| == |vs|;
    forall k | 0 <= k < |us| ensures us[k] == vs[k] {
      assert Urls(list, us)[k] == Urls(list, vs)[k] && us[k] in us && vs[k] in vs;
    }
  }

  /** All delegates considered are tried by catalog.c, which insists on the preferred ones. */
  predicate NoneSkipped(list: seq<Entry>, kind: Kind, id: string, all: bool) {
    forall i :: 0 <= i < |list| && Considered(list[i], kind, id, all) ==> Considered(list[i], kind, id, false)
  }

  lemma NoneSkippedMatching(list: seq<Entry>, kind: Kind, id: string, all: bool)
    ensures NoneSkipped(list, kind, id, all) <==> Matching(list, kind, id, all) == Matching(list, kind, id, false)
  {
    MatchingIs(list, kind, id, all);
    MatchingIs(list, kind, id, false);
    if NoneSkipped(list, kind, id, all) {
      SameMatching(list, kind, id, all);
    }
  }

  lemma OrdersAreDistinct(list: seq<Entry>, kind: Kind, id: string, all: bool)
    ensures Distinct(Matching(list, kind, id, all)) && Distinct(StandardOrder(list, kind, id, all))
    ensures forall i: nat :: i in StandardOrder(list, kind, id, all) <==> i in Matching(list, kind, id, all)
  {
    MatchingAscends(list, kind, id, all);
    MatchingIs(list, kind, id, all);
    OrderIs(list, kind, id, all);
    LongerFirstIsPreorder(list);
    ListSpec.SortIsStable(LongerFirst(list), Matching(list, kind, id, all));
    PermutedDistinct(Matching(list, kind, id, all), StandardOrder(list, kind, id, all));
  }

  lemma SameTriesSameOrder(list: seq<Entry>, kind: Kind, id: string, all: bool)
    requires DifferentUrls(list, Matching(list, kind, id, all)) && SameTries(list, kind, id, all)
    ensures Matching(list, kind, id, false) == StandardOrder(list, kind, id, all)
  {
    var s, c, t := Matching(list, kind, id, all), Matching(list, kind, id, false), StandardOrder(list, kind, id, all);
    OrdersAreDistinct(list, kind, id, all);
    OrdersAreDistinct(list, kind, id, false);
    MatchingIs(list, kind, id, all);
    MatchingIs(list, kind, id, false);
    assert (forall i :: i in c ==> i in s) && (forall i :: i in t ==> i in s);
    hide Matching, StandardOrder, Considered, Url;
    DifferentFirsts(list, c);
    DifferentFirsts(list, t);
    hide Firsts;
    SameIndices(list, c, t, s);
  }

  /** Delegates of different catalogs are asked as they should exactly when none that is considered is skipped, and they
      are listed by non-increasing length of their prefixes. */
  lemma TriesExactlyWhen(list: seq<Entry>, kind: Kind, id: string, all: bool)
    requires DifferentUrls(list, Matching(list, kind, id, all))
    ensures SameTries(list, kind, id, all) <==>
      NoneSkipped(list, kind, id, all) && LongestFirst(list, Matching(list, kind, id, all))
  {
    var s, c := Matching(list, kind, id, all), Matching(list, kind, id, false);
    NoneSkippedMatching(list, kind, id, all);
    SortedWhenLongestFirst(list, s);
    hide Matching, LongestFirst, NoneSkipped, Firsts;
    if SameTries(list, kind, id, all) {
      SameTriesSameOrder(list, kind, id, all);
      OrdersAreDistinct(list, kind, id, all);
      assert forall i: nat :: i in c <==> i in s;
      SubsetMatches(list, kind, id, all);
    }
  }

  lemma SubsetMatches(list: seq<Entry>, kind: Kind, id: string, all: bool)
    requires forall i: nat :: i in Matching(list, kind, id, false) <==> i in Matching(list, kind, id, all)
    ensures Matching(list, kind, id, all) == Matching(list, kind, id, false)
  {
    MatchingIs(list, kind, id, all);
    MatchingIs(list, kind, id, false);
    NoneSkippedMatching(list, kind, id, all);
    hide Matching;
    forall i | 0 <= i < |list| && Considered(list[i], kind, id, all) ensures Considered(list[i], kind, id, false) {
      assert i in Matching(list, kind, id, all);
    }
  }

  // ---- lists that always conform ----

  predicate SameDelegation(e: Entry, f: Entry) {
    e.kind == f.kind && (e.kind == DelegateSystem || e.kind == DelegatePublic)
  }

  /** Every public entry and delegate is preferred, the delegates are listed by non-increasing prefix length, and no
      rewrite rule has an empty start string. */
  ghost predicate Tidy(list: seq<Entry>) {
    && (forall i :: 0 <= i < |list| && list[i].kind == RewriteSystem ==> list[i].name != Some(""))
    && (forall i :: 0 <= i < |list| && (list[i].kind == Public || list[i].kind == DelegatePublic) ==> list[i].preferPublic)
    && (forall i, j :: 0 <= i < j < |list| && SameDelegation(list[i], list[j]) ==>
          PrefixLen(list, i) >= PrefixLen(list, j))
  }

  lemma TidyTries(list: seq<Entry>, kind: Kind, id: string, all: bool)
    requires Tidy(list) && (kind == DelegateSystem || kind == DelegatePublic)
    ensures SameTries(list, kind, id, all)
  {
    var m := Matching(list, kind, id, all);
    SameMatching(list, kind, id, all);
    MatchingAscends(list, kind, id, all);
    MatchingIs(list, kind, id, all);
    forall i, j | 0 <= i < j < |m| ensures PrefixLen(list, m[i]) >= PrefixLen(list, m[j]) {
      assert m[i] in m && m[j] in m;
    }
    SortedWhenLongestFirst(list, m);
  }

  lemma TidyConforms(list: seq<Entry>, ids: Ids)
    requires Tidy(list)
    ensures Conforms(list, ids)
  {
    DirectAlike(list, ids);
    hide DirectAnswer, StandardDirect, LongestStart, SameTries, Matching;
    if ids.sys.Some? {
      TidyTries(list, DelegateSystem, ids.sys.value, true);
    }
    if ids.pub.Some? {
      var id, all := ids.pub.value, ids.sys.None?;
      TidyTries(list, DelegatePublic, id, all);
      FirstExactIsFirst(list, Public, id);
      var k, a := FirstExact(list, Public, id), FirstAllowed(list, id, all);
      assert k <= a;
      assert k < |list| ==> list[k].preferPublic && a <= k;
    }
  }

  // ---- graphs ----

  /** The identifiers an entry passes on */
  function PassedOn(kind: Kind, ids: Ids): Ids {
    if kind == DelegateSystem then Ids(None, ids.sys) else if kind == DelegatePublic then Ids(ids.pub, None) else ids
  }

  /** Resolution by section 7.1 on acyclic catalogs */
  ghost function Standard(g: Graph, rank: Ranks, l: nat, ids: Ids): Answer
    requires Acyclic(g, rank) && l < |g|
    decreases rank[l], 1, 0
  {
    StandardAnswer(g[l], ids, StandardSaid(g, rank, l, |g[l]|, ids))
  }

  ghost function StandardSaid(g: Graph, rank: Ranks, l: nat, n: nat, ids: Ids): (said: seq<Answer>)
    requires Acyclic(g, rank) && l < |g| && n <= |g[l]|
    ensures |said| == n
    decreases rank[l], 0, n
  {
    if n == 0 then []
    else
      var e := g[l][n - 1];
      StandardSaid(g, rank, l, n - 1, ids)
      + [if e.children.None? then NotFound else StandardList(g, rank, e.children.value, PassedOn(e.kind, ids))]
  }

  ghost function StandardList(g: Graph, rank: Ranks, c: nat, ids: Ids): Answer
    requires Acyclic(g, rank) && c < |g|
    decreases rank[c], 3, 0
  {
    if ids == Ids(None, None) then NotFound else StandardCatalogs(g, rank, c, 0, StandardPrepare(ids))
  }

  ghost function StandardCatalogs(g: Graph, rank: Ranks, c: nat, i: nat, ids: Ids): Answer
    requires Acyclic(g, rank) && c < |g| && i <= |g[c]|
    decreases rank[c], 2, |g[c]| - i
  {
    if i == |g[c]| then NotFound
    else if g[c][i].kind == Catalog && g[c][i].children.Some?
            && Standard(g, rank, g[c][i].children.value, ids) != NotFound then
      Standard(g, rank, g[c][i].children.value, ids)
    else StandardCatalogs(g, rank, c, i + 1, ids)
  }

  /** What the catalogs referred to answer in catalog.c */
  ghost function CodeSaid(g: Graph, rank: Ranks, l: nat, n: nat, ids: Ids): (said: seq<Answer>)
    requires Acyclic(g, rank) && l < |g| && n <= |g[l]|
    ensures |said| == n
    ensures forall i :: 0 <= i < n ==> said[i] == Refer(g, rank, l, i, PassedOn(g[l][i].kind, ids))
  {
    seq(n, i requires 0 <= i < n => Refer(g, rank, l, i, PassedOn(g[l][i].kind, ids)))
  }

  lemma CodeSaidIsCoherent(g: Graph, rank: Ranks, l: nat, ids: Ids)
    requires Acyclic(g, rank) && l < |g|
    ensures Coherent(g[l], CodeSaid(g, rank, l, |g[l]|, ids))
  {
    forall i, j | 0 <= i < |g[l]| && 0 <= j < |g[l]| && SameSource(g[l][i], g[l][j])
      ensures Refer(g, rank, l, i, PassedOn(g[l][i].kind, ids)) == Refer(g, rank, l, j, PassedOn(g[l][j].kind, ids))
    {
      assert g[l][i].children == g[l][j].children;
    }
  }

  lemma MatchingFront(list: seq<Entry>, kind: Kind, id: string, i: nat)
    requires i < |list|
    ensures Matching(list[..i + 1], kind, id, false)
         == Matching(list[..i], kind, id, false) + if Delegates(list[i], kind, id) then [i] else []
  {
    assert list[..i + 1][..i] == list[..i];
  }

  lemma SaidPush(said: seq<Answer>, order: seq<nat>, i: nat)
    requires i < |said|
    ensures FirstSaid(said, order + [i]) == if FirstSaid(said, order) != NotFound then FirstSaid(said, order) else said[i]
  {
    assert (order + [i])[..|order|] == order;
  }

  lemma {:induction false} FirstDelegateIs(g: Graph, rank: Ranks, l: nat, i: nat, ids: Ids, kind: Kind, id: string,
                                           said: seq<Answer>)
    requires Acyclic(g, rank) && l < |g| && i <= |g[l]| && said == CodeSaid(g, rank, l, |g[l]|, ids)
    requires (kind == DelegateSystem && ids.sys == Some(id)) || (kind == DelegatePublic && ids.pub == Some(id))
    ensures var a := FirstSaid(said, Matching(g[l][..i], kind, id, false));
      Delegated(FirstSaid(said, Matching(g[l], kind, id, false)))
        == if a != NotFound then a else FirstDelegate(g, rank, l, i, kind, id)
    decreases |g[l]| - i
  {
    hide Matching, FirstSaid, Refer;
    if i == |g[l]| {
      assert g[l][..i] == g[l];
    } else {
      FirstDelegateIs(g, rank, l, i + 1, ids, kind, id, said);
      MatchingFront(g[l], kind, id, i);
      var m := Matching(g[l][..i], kind, id, false);
      SaidPush(said, m, i);
      assert m + [] == m;
      assert Delegates(g[l][i], kind, id) ==> said[i] == Refer(g, rank, l, i, DelegateIds(kind, id));
    }
  }

  lemma {:induction false} FirstNextIs(g: Graph, rank: Ranks, l: nat, i: nat, ids: Ids, said: seq<Answer>)
    requires Acyclic(g, rank) && l < |g| && i <= |g[l]| && said == CodeSaid(g, rank, l, |g[l]|, ids)
    ensures var a := FirstSaid(said, NextEntries(g[l][..i]));
      FirstSaid(said, NextEntries(g[l])) == if a != NotFound then a else FirstNext(g, rank, l, i, ids)
    decreases |g[l]| - i
  {
    if i == |g[l]| {
      assert g[l][..i] == g[l];
    } else {
      FirstNextIs(g, rank, l, i + 1, ids, said);
      assert g[l][..i + 1][..i] == g[l][..i];
      var m := NextEntries(g[l][..i]);
      SaidPush(said, m, i);
      assert m + [] == m;
    }
  }

  lemma AnyMatching(list: seq<Entry>, kind: Kind, id: string)
    ensures AnyDelegate(list, kind, id) <==> Matching(list, kind, id, false) != []
  {
    var m := Matching(list, kind, id, false);
    MatchingIs(list, kind, id, false);
    assert m != [] ==> m[0] in m;
  }

  /** Every list is resolved by the step of catalog.c, given what the catalogs it refers to answer. */
  lemma PrecedenceIsCode(g: Graph, rank: Ranks, l: nat, ids: Ids)
    requires Acyclic(g, rank) && l < |g|
    ensures Precedence(g, rank, l, ids) == CodeAnswer(g[l], ids, CodeSaid(g, rank, l, |g[l]|, ids))
  {
    var said := CodeSaid(g, rank, l, |g[l]|, ids);
    assert g[l][..0] == [];
    if ids.sys.Some? {
      AnyMatching(g[l], DelegateSystem, ids.sys.value);
      FirstDelegateIs(g, rank, l, 0, ids, DelegateSystem, ids.sys.value, said);
    }
    if ids.pub.Some? {
      AnyMatching(g[l], DelegatePublic, ids.pub.value);
      FirstDelegateIs(g, rank, l, 0, ids, DelegatePublic, ids.pub.value, said);
    }
    FirstNextIs(g, rank, l, 0, ids, said);
    hide FirstDelegate, FirstNext, DirectAnswer, AnyDelegate, FirstExact;
  }

  ghost predicate ConformsThroughout(g: Graph) {
    forall l, ids :: 0 <= l < |g| ==> Conforms(g[l], ids)
  }

  /** Where all lists conform and the identifiers agree, resolution is that of section 7.1. */
  lemma {:induction false} PrecedenceMeetsStandard(g: Graph, rank: Ranks, l: nat, ids: Ids)
    requires Acyclic(g, rank) && l < |g| && ConformsThroughout(g) && PreparesAlike(ids)
    ensures Precedence(g, rank, l, ids) == Standard(g, rank, l, ids)
    decreases rank[l], 1, 0
  {
    var said := CodeSaid(g, rank, l, |g[l]|, ids);
    PrecedenceIsCode(g, rank, l, ids);
    SaidMeetsStandard(g, rank, l, |g[l]|, ids);
    CodeSaidIsCoherent(g, rank, l, ids);
    StepMeetsExactlyWhen(g[l], ids);
    assert Conforms(g[l], ids);
    hide CodeAnswer, StandardAnswer, Conforms, Precedence;
    assert CodeAnswer(g[l], ids, said) == StandardAnswer(g[l], ids, said);
  }

  lemma {:induction false} SaidMeetsStandard(g: Graph, rank: Ranks, l: nat, n: nat, ids: Ids)
    requires Acyclic(g, rank) && l < |g| && n <= |g[l]| && ConformsThroughout(g) && PreparesAlike(ids)
    ensures CodeSaid(g, rank, l, n, ids) == StandardSaid(g, rank, l, n, ids)
    decreases rank[l], 0, n
  {
    if n > 0 {
      SaidMeetsStandard(g, rank, l, n - 1, ids);
      PlainlyNone();
      var e := g[l][n - 1];
      if e.children.Some? {
        ListMeetsStandard(g, rank, e.children.value, PassedOn(e.kind, ids));
      }
      assert CodeSaid(g, rank, l, n, ids)
          == CodeSaid(g, rank, l, n - 1, ids) + [Refer(g, rank, l, n - 1, PassedOn(e.kind, ids))];
    }
  }

  lemma {:induction false} ListMeetsStandard(g: Graph, rank: Ranks, c: nat, ids: Ids)
    requires Acyclic(g, rank) && c < |g| && ConformsThroughout(g) && PreparesAlike(ids)
    ensures ListPrecedence(g, rank, c, ids) == StandardList(g, rank, c, ids)
    decreases rank[c], 3, 0
  {
    if ids != Ids(None, None) {
      PreparationMeetsExactlyWhen(ids);
      PreparedIsAlike(ids);
      CatalogsMeetStandard(g, rank, c, 0, Prepare(ids));
    }
  }

  lemma {:induction false} CatalogsMeetStandard(g: Graph, rank: Ranks, c: nat, i: nat, ids: Ids)
    requires Acyclic(g, rank) && c < |g| && i <= |g[c]| && ConformsThroughout(g) && PreparesAlike(ids)
    ensures FirstCatalog(g, rank, c, i, ids) == StandardCatalogs(g, rank, c, i, ids)
    decreases rank[c], 2, |g[c]| - i
  {
    if i < |g[c]| {
      CatalogsMeetStandard(g, rank, c, i + 1, ids);
      if g[c][i].kind == Catalog && g[c][i].children.Some? {
        PrecedenceMeetsStandard(g, rank, g[c][i].children.value, ids);
      }
    }
  }

  lemma TidyThroughout(g: Graph)
    requires forall k :: 0 <= k < |g| ==> Tidy(g[k])
    ensures ConformsThroughout(g)
  {
    forall k, ids | 0 <= k < |g| ensures Conforms(g[k], ids) {
      TidyConforms(g[k], ids);
    }
  }

  /** So on tidy acyclic catalogs resolution gives the answer of section 7.1 and brings all counters back. */
  lemma ResolveMeetsStandard(g: Graph, d: Depths, rank: Ranks, l: nat, ids: Ids)
    requires Ready(g, d, l) && Acyclic(g, rank) && Low(d, rank, rank[l]) && forall k :: 0 <= k < |g| ==> Tidy(g[k])
    requires PreparesAlike(ids)
    ensures Resolve(g, d, l, ids.pub, ids.sys) == Result(Standard(g, rank, l, ids), d)
  {
    ResolveRefines(g, d, rank, l, ids.pub, ids.sys);
    TidyThroughout(g);
    PrecedenceMeetsStandard(g, rank, l, ids);
  }

  /** The same for a lookup in a list of catalogs */
  lemma LookupMeetsStandard(g: Graph, d: Depths, rank: Ranks, c: nat, ids: Ids)
    requires Ready(g, d, c) && Acyclic(g, rank) && Low(d, rank, rank[c]) && forall k :: 0 <= k < |g| ==> Tidy(g[k])
    requires PreparesAlike(ids)
    ensures ResolveList(g, d, c, ids.pub, ids.sys) == Result(StandardList(g, rank, c, ids), d)
  {
    ListRefines(g, d, rank, c, ids.pub, ids.sys);
    TidyThroughout(g);
    ListMeetsStandard(g, rank, c, ids);
  }

  // ---- examples of lists that do not conform ----

  /** Two delegates, the one with the shorter prefix first */
  function ShortAndLong(): seq<Entry> {
    [Entry(DelegateSystem, Some("a"), Some("one"), false, None), Entry(DelegateSystem, Some("ab"), Some("two"), false, None)]
  }

  lemma BothMatch(all: bool)
    ensures Matching(ShortAndLong(), DelegateSystem, "ab", all) == [0, 1]
  {
    var list := ShortAndLong();
    assert list[..1] == [list[0]] && list[..1][..0] == [];
    assert Considered(list[0], DelegateSystem, "ab", all) && Considered(list[1], DelegateSystem, "ab", all);
    assert Matching(list[..1], DelegateSystem, "ab", all) == [0];
  }

  lemma NothingElse()
    ensures NotDirect(ShortAndLong(), Ids(None, Some("ab"))) && Coherent(ShortAndLong(), [Uri("one"), Uri("two")])
  {
    var list := ShortAndLong();
    FirstExactIsFirst(list, System, "ab");
    BestRewriteIsBest(list, "ab");
    LongestStartIsLongest(list, "ab");
    hide FirstExact, BestRewrite, LongestStart;
  }

  lemma LongThenShort()
    ensures ListSpec.SortTwice(LongerFirst(ShortAndLong()), [0, 1]) == [1, 0]
  {
    LongerFirstIsPreorder(ShortAndLong());
    SortTwo(LongerFirst(ShortAndLong()), 0, 1);
  }

  lemma SortTwo(cmp: ListSpec.Compare<nat>, i: nat, j: nat)
    requires ListSpec.TotalPreorder(cmp) && cmp(j, i) < 0
    ensures ListSpec.SortTwice(cmp, [i, j]) == [j, i]
  {
    forall x: nat ensures ListSpec.Class(cmp, [i, j], x) == ListSpec.Class(cmp, [j, i], x) {
      ClassOfTwo(cmp, i, j, x);
      ClassOfTwo(cmp, j, i, x);
      assert ListSpec.Mirrors(cmp, i, j) && ListSpec.Mirrors(cmp, x, j) && ListSpec.Chains(cmp, i, x, j);
    }
    hide ListSpec.Class, ListSpec.SortTwice, ListSpec.TotalPreorder;
    ListSpec.SortIsTheStableSort(cmp, [i, j], [j, i]);
  }

  lemma ClassOfTwo(cmp: ListSpec.Compare<nat>, i: nat, j: nat, x: nat)
    ensures ListSpec.Class(cmp, [i, j], x) == ListSpec.Only(cmp, i, x) + ListSpec.Only(cmp, j, x)
  {
    assert [i, j][1..] == [j] && [j][1..] == [];
    assert ListSpec.Class(cmp, [j], x) == ListSpec.Only(cmp, j, x);
  }

  /** The shorter prefix comes first and answers, although the longer one has an answer of its own. */
  lemma ShorterPrefixAnswers()
    ensures var list, ids, said := ShortAndLong(), Ids(None, Some("ab")), [Uri("one"), Uri("two")];
      && Coherent(list, said) && !Conforms(list, ids)
      && CodeAnswer(list, ids, said) == Uri("one") && StandardAnswer(list, ids, said) == Uri("two")
  {
    ShortAndLongAnswer();
    hide ShortAndLong, CodeAnswer, StandardAnswer, Conforms, Coherent;
    StepMeetsExactlyWhen(ShortAndLong(), Ids(None, Some("ab")));
  }

  lemma ShortAndLongAnswer()
    ensures var list, ids, said := ShortAndLong(), Ids(None, Some("ab")), [Uri("one"), Uri("two")];
      && Coherent(list, said) && CodeAnswer(list, ids, said) == Uri("one") && StandardAnswer(list, ids, said) == Uri("two")
  {
    ShortAndLongOrders();
    hide ShortAndLong, Matching, NotDirect, StandardOrder, FirstSaid, CodeAnswer, StandardAnswer, Coherent;
    var said := [Uri("one"), Uri("two")];
    FirstOfTwo(said, 0, 1);
    FirstOfTwo(said, 1, 0);
    SystemAnswers(ShortAndLong(), Ids(None, Some("ab")), said);
  }

  lemma ShortAndLongOrders()
    ensures var list := ShortAndLong();
      && NotDirect(list, Ids(None, Some("ab"))) && Coherent(list, [Uri("one"), Uri("two")])
      && Matching(list, DelegateSystem, "ab", false) == [0, 1] && StandardOrder(list, DelegateSystem, "ab", true) == [1, 0]
  {
    NothingElse();
    BothMatch(true);
    BothMatch(false);
    LongThenShort();
    hide ShortAndLong, Coherent, Matching, NotDirect, LongerFirst;
  }

  lemma SystemAnswers(list: seq<Entry>, ids: Ids, said: seq<Answer>)
    requires NotDirect(list, ids) && ids.sys.Some?
    requires Matching(list, DelegateSystem, ids.sys.value, false) != []
    requires StandardOrder(list, DelegateSystem, ids.sys.value, true) != []
    ensures CodeAnswer(list, ids, said)
         == Delegated(FirstSaid(said, Matching(list, DelegateSystem, ids.sys.value, false)))
    ensures StandardAnswer(list, ids, said)
         == Delegated(FirstSaid(said, StandardOrder(list, DelegateSystem, ids.sys.value, true)))
  {
    hide Matching, StandardOrder, FirstSaid, DirectAnswer, StandardDirect, FirstExact, FirstAllowed;
  }

  lemma FirstOfTwo(said: seq<Answer>, i: nat, j: nat)
    requires i < |said| && said[i] != NotFound
    ensures FirstSaid(said, [i, j]) == said[i]
  {
    assert [i, j][..1] == [i] && [i][..0] == [];
    assert FirstSaid(said, [i]) == said[i];
  }

  /** A public entry that is not preferred answers, although there is a system identifier. */
  lemma PreferenceIsIgnored()
    ensures var list := [Entry(Public, Some("p"), Some("here"), false, None)];
      var ids, said := Ids(Some("p"), Some("s")), [NotFound];
      && Coherent(list, said) && !Conforms(list, ids)
      && CodeAnswer(list, ids, said) == Uri("here") && StandardAnswer(list, ids, said) == NotFound
  {
    var list := [Entry(Public, Some("p"), Some("here"), false, None)];
    var ids := Ids(Some("p"), Some("s"));
    FirstExactIsFirst(list, System, "s");
    BestRewriteIsBest(list, "s");
    assert list[..0] == [] && NextEntries(list) == [];
    assert Matching(list, DelegateSystem, "s", true) == [] && Matching(list, DelegatePublic, "p", false) == [];
    hide Matching, BestRewrite;
    PublicAlike(list, ids, NotFound);
    assert Alike(list, NotFound) == [NotFound];
    hide FirstAllowed, FirstExact, StandardOrder;
    StepMeetsExactlyWhen(list, ids);
  }

  /** A rewrite rule for everything is passed over. */
  lemma EmptyStartIsIgnored()
    ensures var list := [Entry(RewriteSystem, Some(""), Some("http://mirror/"), false, None)];
      var ids, said := Ids(None, Some("a")), [NotFound];
      && Coherent(list, said) && !Conforms(list, ids)
      && CodeAnswer(list, ids, said) == NotFound && StandardAnswer(list, ids, said) == Uri("http://mirror/a")
  {
    var list := [Entry(RewriteSystem, Some(""), Some("http://mirror/"), false, None)];
    var ids := Ids(None, Some("a"));
    assert list[..0] == [] && list[1..] == [] && NextEntries(list) == [];
    FirstExactIsFirst(list, System, "a");
    assert Matching(list, DelegateSystem, "a", false) == [];
    assert RewritesAny(list[0], "a") && LongestStart(list, "a") == Some(0);
    assert "a"[0..] == "a" && "http://mirror/" + "a" == "http://mirror/a";
    assert StandardDirect(list, ids) == Some(Uri("http://mirror/a"));
    assert BestRewrite(list, "a") == None;
    StepMeetsExactlyWhen(list, ids);
  }

  /** One catalog that knows the system identifier "q" */
  function KnowsQ(): Graph {
    [[Entry(Catalog, None, Some("c"), false, Some(1))], [Entry(System, Some("q"), Some("here"), false, None)]]
  }

  lemma KnowsQIsTidy()
    ensures Acyclic(KnowsQ(), [1, 0]) && forall k :: 0 <= k < |KnowsQ()| ==> Tidy(KnowsQ()[k])
  {
  }

  lemma CodeKnowsQ()
    requires Acyclic(KnowsQ(), [1, 0])
    ensures Precedence(KnowsQ(), [1, 0], 1, Ids(Some("p"), Some("q"))) == Uri("here")
  {
    FirstExactIsFirst(KnowsQ()[1], System, "q");
    assert FirstExact(KnowsQ()[1], System, "q") == 0;
  }

  lemma StandardMissesQ()
    requires Acyclic(KnowsQ(), [1, 0])
    ensures Standard(KnowsQ(), [1, 0], 1, Ids(Some("p"), None)) == NotFound
  {
    var list := KnowsQ()[1];
    assert list[..0] == [] && list[1..] == [] && NextEntries(list) == [];
    OrdersOfKind(list, DelegatePublic, "p", true);
    assert Matching(list, DelegatePublic, "p", true) == [];
    assert FirstAllowed(list, "p", true) == 1;
    hide StandardOrder, Matching, FirstAllowed, NextEntries, Acyclic;
  }

  /** Asked for "p" with a system identifier in error, catalog.c answers for the latter. */
  lemma ConflictAnswers()
    ensures var g, rank, ids := KnowsQ(), [1, 0], Ids(Some("p"), Some("urn:publicid:q"));
      && Acyclic(g, rank) && (forall k :: 0 <= k < |g| ==> Tidy(g[k]))
      && ListPrecedence(g, rank, 0, ids) == Uri("here") && StandardList(g, rank, 0, ids) == NotFound
  {
    ConflictIsKept();
    KnowsQIsTidy();
    CodeKnowsQ();
    StandardMissesQ();
    hide Precedence, Standard, Prepare, StandardPrepare, Acyclic, Tidy;
  }
}
