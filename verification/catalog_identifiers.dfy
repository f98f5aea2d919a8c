/** The identifiers a lookup starts from: what section 7.1.1 of OASIS XML Catalogs makes of them, and what catalog.c does. */
module CatalogIdentifiers {
  import opened Basics
  import opened CatalogText
  import opened CatalogUrn
  import opened CatalogGraph
  import opened CatalogPrecedence

  /** The words of the public identifier with single spaces between them, unwrapped until that is no `urn:publicid:` name;
      None if there are none. */
  ghost function Plainly(pub: Option<string>): (p: Option<string>)
    decreases PubMeasure(pub)
  {
    if pub.None? || Words(pub.value) == [] then None
    else
      var n := Join(Words(pub.value));
      if IsUrn(n) then
        NormPubIs(pub);
        PubMeasureFalls(pub);
        Plainly(Some(Unwrap(n)))
      else Some(n)
  }

  /** What the code takes for the public identifier */
  lemma NormPubIs(pub: Option<string>)
    ensures NormPub(pub) == if pub.None? || Words(pub.value) == [] then None else Some(Join(Words(pub.value)))
  {
    if pub.Some? {
      NoWords(pub.value);
    }
  }

  lemma NoWords(s: string)
    ensures Join(Words(s)) == "" <==> Words(s) == []
  {
    WordsAreNotEmpty(s);
    var w := Words(s);
    assert w != [] ==> w[0] != "" && |Join(w)| >= |w[0]|;
  }

  lemma {:induction false} WordsAreNotEmpty(s: string)
    ensures forall i :: 0 <= i < |Words(s)| ==> Words(s)[i] != ""
    decreases |s|
  {
    if s != "" {
      if IsBlank(s[0]) {
        WordsAreNotEmpty(s[1..]);
      } else {
        WordsAreNotEmpty(s[WordLen(s)..]);
      }
    }
  }

  /** A system identifier that is a `urn:publicid:` name stands for the public identifier in it: for the one given, if there
      is one and it is the same. If it is another one, the system identifier is in error and discarded. */
  ghost function StandardPrepare(ids: Ids): Ids {
    var p := Plainly(ids.pub);
    if ids.sys.Some? && IsUrn(ids.sys.value) then
      Ids(if p.None? then Plainly(Some(Unwrap(ids.sys.value))) else p, None)
    else Ids(p, ids.sys)
  }

  /** Unwrapping the system identifier, perhaps more than once, gives `p`. */
  ghost predicate UnwrapsTo(sys: string, p: string)
    decreases SysMeasure(Some(sys))
  {
    IsUrn(sys) &&
    (Unwrap(sys) == p || (SysMeasureFalls(sys); UnwrapsTo(Unwrap(sys), p)))
  }

  /** The system identifier is not wrapped, or there is no public identifier, or it is the same. */
  ghost predicate PreparesAlike(ids: Ids) {
    ids.sys.Some? && IsUrn(ids.sys.value) && Plainly(ids.pub).Some? ==>
      UnwrapsTo(ids.sys.value, Plainly(ids.pub).value)
  }

  /** What the preparation of catalog.c comes to */
  lemma {:induction false} PreparedParts(ids: Ids)
    ensures var p, r := Plainly(ids.pub), Prepare(ids);
      && (r.sys.Some? ==> !IsUrn(r.sys.value))
      && if ids.sys.None? || !IsUrn(ids.sys.value) then r == Ids(p, ids.sys)
         else if p.None? then r == Ids(Plainly(Some(Unwrap(ids.sys.value))), None)
         else r.pub == p && (r.sys.None? <==> UnwrapsTo(ids.sys.value, p.value))
    decreases SysMeasure(ids.sys), PubMeasure(ids.pub)
  {
    var p := NormPub(ids.pub);
    NormPubIs(ids.pub);
    if p.Some? && IsUrn(p.value) {
      PubMeasureFalls(ids.pub);
      PreparedParts(Ids(Some(Unwrap(p.value)), ids.sys));
    } else if ids.sys.Some? && IsUrn(ids.sys.value) {
      var u := Unwrap(ids.sys.value);
      SysMeasureFalls(ids.sys.value);
      if p.Some? {
        NormalIsIdempotent(ids.pub.value);
        NormPubIs(p);
      }
      assert Plainly(ids.pub) == p && Plainly(p) == p;
      if p.None? {
        PreparedParts(Ids(Some(u), None));
      } else if p == Some(u) {
        PreparedParts(Ids(p, None));
      } else {
        PreparedParts(Ids(p, Some(u)));
      }
    }
  }

  /** catalog.c keeps a system identifier that is in error, and nothing else makes a difference. */
  lemma PreparationMeetsExactlyWhen(ids: Ids)
    ensures Prepare(ids) == StandardPrepare(ids) <==> PreparesAlike(ids)
  {
    PreparedParts(ids);
    hide Prepare, Plainly, UnwrapsTo;
  }

  lemma PreparedIsAlike(ids: Ids)
    ensures PreparesAlike(Prepare(ids))
  {
    PreparedParts(ids);
    hide Prepare, Plainly, UnwrapsTo;
  }

  lemma PlainlyNone()
    ensures Plainly(None) == None
  {
  }

  // ---- normalisation, seen from outside ----

  /** Only the words of a public identifier matter, not the blanks between and around them. */
  lemma OnlyWordsMatter(g: Graph, d: Depths, c: nat, p: string, p': string, sys: Option<string>)
    requires Ready(g, d, c) && Words(p) == Words(p')
    ensures ResolveList(g, d, c, Some(p), sys) == ResolveList(g, d, c, Some(p'), sys)
    ensures Prepare(Ids(Some(p), sys)) == Prepare(Ids(Some(p'), sys))
  {
    NormPubIs(Some(p));
    NormPubIs(Some(p'));
    hide TryCatalogs;
  }

  /** A public identifier of blanks is none. */
  lemma BlanksAreNothing(g: Graph, d: Depths, c: nat, p: string, sys: Option<string>)
    requires Ready(g, d, c) && forall i :: 0 <= i < |p| ==> IsBlank(p[i])
    ensures ResolveList(g, d, c, Some(p), sys) == ResolveList(g, d, c, None, sys)
    ensures Prepare(Ids(Some(p), sys)) == Prepare(Ids(None, sys))
  {
    NoWordsInBlanks(p);
    NormPubIs(Some(p));
    NormPubIs(None);
    if sys.None? {
      NobodyAsked(g, d, c, 0);
    }
    hide TryCatalogs;
  }

  lemma {:induction false} NoWordsInBlanks(p: string)
    requires forall i :: 0 <= i < |p| ==> IsBlank(p[i])
    ensures Words(p) == []
  {
    if p != "" {
      NoWordsInBlanks(p[1..]);
    }
  }

  /** Without identifiers nothing is asked. */
  lemma {:induction false} NobodyAsked(g: Graph, d: Depths, c: nat, i: nat)
    requires Ready(g, d, c) && i <= |g[c]|
    ensures TryCatalogs(g, d, c, i, None, None) == Result(NotFound, d)
    decreases |g[c]| - i
  {
    if i < |g[c]| {
      NobodyAsked(g, d, c, i + 1);
      if g[c][i].kind == Catalog && g[c][i].children.Some? {
        var l := g[c][i].children.value;
        if d[l] <= MAX_CATAL_DEPTH {
          assert Leave(Enter(d, l), l) == d;
        }
        assert Resolve(g, d, l, None, None) == Result(NotFound, d);
      }
    }
  }

  /** The public identifier that is passed on has no blank at either end and only single spaces inside. */
  lemma {:induction false} PreparedIsClean(ids: Ids)
    ensures Prepare(ids).pub.Some? ==> Clean(Prepare(ids).pub.value, true)
    decreases SysMeasure(ids.sys), PubMeasure(ids.pub)
  {
    var p := NormPub(ids.pub);
    NormPubIs(ids.pub);
    if p.Some? && IsUrn(p.value) {
      PubMeasureFalls(ids.pub);
      PreparedIsClean(Ids(Some(Unwrap(p.value)), ids.sys));
    } else if ids.sys.Some? && IsUrn(ids.sys.value) {
      var u := Unwrap(ids.sys.value);
      SysMeasureFalls(ids.sys.value);
      PreparedIsClean(if p.None? then Ids(Some(u), None) else if p == Some(u) then Ids(p, None) else Ids(p, Some(u)));
    } else if p.Some? {
      NormalIsIdempotent(ids.pub.value);
      NoWords(ids.pub.value);
      CleanIsNormal(p.value);
    }
  }

  // ---- an example ----

  /** One character: a space, a tab, a line feed or a carriage return is nothing, any other is kept. */
  lemma OneLetter(c: char)
    ensures Normal([c]) == if c == ' ' || c == '\t' || c == '\n' || c == '\r' then "" else [c]
    ensures Normal([c]) == [c] ==>
      !IsUrn([c]) && NormPub(Some([c])) == Some([c]) && Plainly(Some([c])) == Some([c])
  {
    var s := [c];
    assert s[1..] == [] && s[..1] == s && |"urn:publicid:"| == 13;
    if !IsBlank(c) {
      assert WordLen(s) == 1;
      assert Words(s) == [s] + Words([]);
      assert Words(s) == [s];
    } else {
      assert Words(s) == Words([]);
    }
    NormPubIs(Some(s));
  }

  lemma QIsWrapped()
    ensures IsUrn("urn:publicid:q") && Unwrap("urn:publicid:q") == "q"
  {
    var sys := "urn:publicid:q";
    assert sys == XML_URN_PUBID + "q" && sys[|XML_URN_PUBID|..] == "q";
    assert Decode("q") == Piece("q", 1) && "q"[1..] == "";
    assert Unwrapped("q", 0) == "q" + Unwrapped("", 1);
  }

  /** The public identifier "p" with a system identifier that says "q": both are kept. */
  lemma ConflictIsKept()
    ensures var ids := Ids(Some("p"), Some("urn:publicid:q"));
      && Prepare(ids) == Ids(Some("p"), Some("q")) && StandardPrepare(ids) == Ids(Some("p"), None)
      && !PreparesAlike(ids)
  {
    var sys := "urn:publicid:q";
    OneLetter('p');
    OneLetter('q');
    QIsWrapped();
    var ids := Ids(Some("p"), Some(sys));
    PreparationMeetsExactlyWhen(ids);
    SysMeasureFalls(sys);
    hide Normal, NormPub, IsUrn, Unwrap, Plainly, UnwrapsTo;
    assert Prepare(Ids(Some("p"), Some("q"))) == Ids(Some("p"), Some("q"));
  }

  /** Two blanks between words become one. */
  lemma BlanksAreFolded()
    ensures Words("a  b") == ["a", "b"] && Normal("a  b") == "a b"
  {
    var s := "a  b";
    assert s[1..] == "  b" && "  b"[1..] == " b" && " b"[1..] == "b" && "b"[1..] == "" && s[..1] == "a" && "b"[..1] == "b";
    assert WordLen("  b") == 0 && WordLen(s) == 1 && WordLen("b") == 1;
    assert Words("b") == ["b"] + Words("") && Words("  b") == Words("b");
    assert Words(s) == ["a"] + Words("  b");
    assert Join(["a", "b"]) == "a" + " " + Join(["a", "b"][1..]) && ["a", "b"][1..] == ["b"];
  }
}
