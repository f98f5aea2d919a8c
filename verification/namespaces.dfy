/** The splitting of qualified names in CallersData.cpp. */
module Namespaces {
  import opened Basics

  const NO_RECORD := "C_code"
  const BUILTIN := "builtin"
  const BUILTIN_NAMESPACE := "env"
  const ROOT := "::"

  /** The parts between the separators, as a split at every leftmost "::" gives them */
  function Split(s: string): (parts: seq<string>)
    ensures parts != [] && parts[0] <= s
    decreases |s|
  {
    if s == "" then [""]
    else if ROOT <= s then [""] + Split(s[2..])
    else
      var rest := Split(s[1..]);
      [[s[0]] + rest[0]] + rest[1..]
  }

  /** Every part with the separator before it */
  function Prefixed(parts: seq<string>): string {
    if parts == [] then "" else Prefixed(parts[..|parts| - 1]) + ROOT + parts[|parts| - 1]
  }

  lemma {:induction false} PrefixedFront(p: string, parts: seq<string>)
    ensures Prefixed([p] + parts) == ROOT + (p + Prefixed(parts))
    decreases |parts|
  {
    var all, n := [p] + parts, |parts|;
    if n == 0 {
      assert all[..0] == [];
    } else {
      assert all[..n] == [p] + parts[..n - 1];
      PrefixedFront(p, parts[..n - 1]);
      var before := Prefixed(parts[..n - 1]);
      assert ROOT + (p + before) + ROOT + parts[n - 1] == ROOT + (p + (before + ROOT + parts[n - 1]));
    }
  }

  lemma SameTail(a: string, x: string, y: string)
    requires a + x == a + y
    ensures x == y
  {
    assert (a + x)[|a|..] == x && (a + y)[|a|..] == y;
  }

  /** A character put in front of the first part goes behind the first separator. */
  lemma PrefixedCons(c: char, rest: seq<string>, x: string)
    requires rest != [] && Prefixed(rest) == ROOT + x
    ensures Prefixed([[c] + rest[0]] + rest[1..]) == ROOT + ([c] + x)
  {
    var first, tail := rest[0], Prefixed(rest[1..]);
    assert rest == [first] + rest[1..];
    PrefixedFront(first, rest[1..]);
    PrefixedFront([c] + first, rest[1..]);
    SameTail(ROOT, first + tail, x);
    assert [c] + first + tail == [c] + (first + tail);
  }

  /** Splitting and joining again gives the name back. */
  lemma {:induction false} SplitJoins(s: string)
    ensures Prefixed(Split(s)) == ROOT + s
    decreases |s|
  {
    if s == "" {
      PrefixedFront("", []);
    } else if ROOT <= s {
      SplitJoins(s[2..]);
      PrefixedFront("", Split(s[2..]));
      SplitAtRoot(s);
    } else {
      SplitJoins(s[1..]);
      PrefixedCons(s[0], Split(s[1..]), s[1..]);
      assert [s[0]] + s[1..] == s;
    }
  }

  predicate Simple(p: string) {
    forall i :: 0 < i < |p| ==> !(p[i - 1] == ':' && p[i] == ':')
  }

  /** No part holds a separator, and none that is followed by one ends with a colon: the separators are the leftmost. */
  lemma {:induction false} PartsAreSimple(s: string)
    ensures forall i :: 0 <= i < |Split(s)| ==> Simple(Split(s)[i])
    ensures forall i :: 0 <= i < |Split(s)| - 1 ==> NoColonAtEnd(Split(s)[i])
    ensures |Split(s)| == 1 ==> Split(s)[0] == s
    decreases |s|
  {
    if s != "" && !(ROOT <= s) {
      PartsAreSimple(s[1..]);
      var rest := Split(s[1..]);
      var p := [s[0]] + rest[0];
      assert [s[0]] + s[1..] == s;
      assert |p| > 1 ==> p[1] == s[1];
      forall i | 0 < i < |p| ensures !(p[i - 1] == ':' && p[i] == ':') {
        assert Simple(rest[0]) && p[i] == rest[0][i - 1];
        assert i > 1 ==> p[i - 1] == rest[0][i - 2];
      }
      if |rest| > 1 {
        assert NoColonAtEnd(rest[0]);
        SplitStart(s[1..]);
        assert rest[0] != "" ==> p[|p| - 1] == rest[0][|rest[0]| - 1];
      }
    } else if s != "" {
      PartsAreSimple(s[2..]);
    }
  }

  predicate NoColonAtEnd(p: string) {
    p != "" ==> p[|p| - 1] != ':'
  }

  /** A name that starts with an empty part and goes on starts with a separator. */
  lemma SplitStart(s: string)
    ensures Split(s)[0] == "" && |Split(s)| > 1 ==> ROOT <= s
  {
  }

  /** A name without a separator has one part. */
  lemma {:induction false} SimpleIsOnePart(s: string)
    requires Simple(s)
    ensures Split(s) == [s]
    decreases |s|
  {
    if s != "" {
      assert |s| > 1 ==> !(s[1 - 1] == ':' && s[1] == ':');
      assert Simple(s[1..]) by {
        forall i | 0 < i < |s[1..]| ensures !(s[1..][i - 1] == ':' && s[1..][i] == ':') {
          assert s[i + 1] == s[1..][i] && s[i] == s[1..][i - 1];
        }
      }
      SimpleIsOnePart(s[1..]);
      assert [s[0]] + s[1..] == s;
    }
  }

  /** So it has no namespace, with a record or without. */
  lemma WithoutSeparator(id: string, record: string)
    requires Simple(id) && id != "builtin"
    ensures NamesOf(id, record) == Some(Names(false, "::", "::"))
  {
    SimpleIsOnePart(id);
  }

  lemma SplitAtRoot(s: string)
    requires ROOT <= s
    ensures "" + (ROOT + s[2..]) == s
  {
  }

  lemma SplitLeading(s: string)
    ensures Split(ROOT + s) == [""] + Split(s)
  {
    assert (ROOT + s)[2..] == s;
  }

  datatype Names = Names(found: bool, root: string, namespaces: string)

  const NO_NAMESPACE := Names(false, ROOT, ROOT)

  function Ignored(record: string): nat {
    if record != NO_RECORD then 2 else 1
  }

  /** Behind a leading "::", if there is one, a part that is not empty stands in front of the last part, or of the last two
      if the name belongs to a record. */
  predicate HasNamespace(parts: seq<string>, record: string)
    requires parts != []
  {
    var first := if parts[0] == "" then 1 else 0;
    |parts| > first + (if record != "C_code" then 2 else 1) && parts[first] != ""
  }

  /** What get_namespaces answers for the parts of a name; None where its assertion fails. */
  function NamesOfParts(parts: seq<string>, record: string): Option<Names>
    requires parts != []
  {
    var n, ign := |parts|, Ignored(record);
    var start := if parts[0] == "" then 1 else 0;
    if n <= start + ign || parts[start] == "" then Some(NO_NAMESPACE)
    else if record != NO_RECORD && parts[n - 2] != record then None
    else Some(Names(true, parts[start], Prefixed(parts[start..n - ign])))
  }

  function NamesOf(id: string, record: string): Option<Names> {
    if id == BUILTIN then Some(Names(false, BUILTIN_NAMESPACE, BUILTIN_NAMESPACE))
    else NamesOfParts(Split(id), record)
  }

  /** get_namespaces, for a name without a parenthesis */
  method GetNamespaces(identifier: string, recordName: string) returns (r: Option<Names>)
    requires '(' !in identifier
    ensures r == NamesOf(identifier, recordName)
    ensures identifier == "builtin" ==> r == Some(Names(false, "env", "env"))
    ensures identifier != "builtin" && !HasNamespace(Split(identifier), recordName) ==> r == Some(Names(false, "::", "::"))
    ensures identifier != "builtin" && HasNamespace(Split(identifier), recordName) ==>
      var parts := Split(identifier);
      var first := if parts[0] == "" then 1 else 0;
      if recordName != "C_code" && parts[|parts| - 2] != recordName then r == None
      else r == Some(Names(true, parts[first], Prefixed(parts[first..|parts| - if recordName != "C_code" then 2 else 1])))
  {
    if identifier == BUILTIN {
      return Some(Names(false, BUILTIN_NAMESPACE, BUILTIN_NAMESPACE));
    }
    var lparts := Split(identifier);
    if |lparts| == 1 {
      return Some(NO_NAMESPACE);
    }
    var ign := 1;
    if recordName != NO_RECORD {
      ign := ign + 1;
      if |lparts| == 2 {
        return Some(NO_NAMESPACE);
      }
      if |lparts[0]| == 0 && |lparts| == 3 {
        return Some(NO_NAMESPACE);
      }
    }
    if |lparts[0]| > 0 {
      var namespaces, p := Collect(lparts, 0, ign);
      if recordName != NO_RECORD && lparts[p] != recordName {
        return None;
      }
      return Some(Names(true, lparts[0], namespaces));
    }
    if |lparts[1]| == 0 {
      return Some(NO_NAMESPACE);
    }
    var namespaces, p := Collect(lparts, 1, ign);
    if 2 == |lparts| {
      return Some(NO_NAMESPACE);
    }
    if recordName != NO_RECORD && lparts[p] != recordName {
      return None;
    }
    return Some(Names(true, lparts[1], namespaces));
  }

  /** The loop that builds the namespaces, and where its iterator stops */
  method Collect(lparts: seq<string>, start: nat, ign: nat) returns (namespaces: string, p: nat)
    requires start + ign <= |lparts|
    ensures p == |lparts| - ign && namespaces == Prefixed(lparts[start..p])
  {
    namespaces, p := "", start;
    while p + ign < |lparts|
      invariant start <= p <= |lparts| - ign && namespaces == Prefixed(lparts[start..p])
    {
      assert lparts[start..p + 1][..p - start] == lparts[start..p];
      namespaces := namespaces + (ROOT + lparts[p]);
      p := p + 1;
    }
  }

  /** A leading "::" makes no difference, except for the builtin name and for names that have one already and go deeper. */
  lemma LeadingSeparatorMattersExactlyWhen(id: string, record: string)
    ensures NamesOf(ROOT + id, record) == NamesOf(id, record) <==>
      id != BUILTIN
      && !(Split(id)[0] == "" && |Split(id)| > Ignored(record) + 1 && Split(id)[1] != "")
  {
    var parts := Split(id);
    SplitLeading(id);
    assert (ROOT + id)[0] == ':';
    if id != BUILTIN {
      hide Split;
      PartsLeading(parts, record);
    }
  }

  lemma PartsLeading(parts: seq<string>, record: string)
    requires parts != []
    ensures NamesOfParts([""] + parts, record) == NamesOfParts(parts, record) <==>
      !(parts[0] == "" && |parts| > Ignored(record) + 1 && parts[1] != "")
  {
    hide Prefixed;
    var ign, more := Ignored(record), [""] + parts;
    if parts[0] != "" && |parts| > ign {
      assert more[1..|more| - ign] == parts[..|parts| - ign];
    }
  }

  /** The parts of the answer rebuild the name: without a record, a name with a first part and at least one more. */
  lemma NamesRebuild(id: string)
    requires id != BUILTIN && Split(id)[0] != "" && |Split(id)| >= 2
    ensures var parts := Split(id);
      var r := NamesOf(id, NO_RECORD);
      r.Some? && r.value.found && r.value.root == parts[0]
      && r.value.namespaces + ROOT + parts[|parts| - 1] == ROOT + id
  {
    SplitJoins(id);
  }

  /** With a record, which is the last part but one, the same holds for the name of the record. */
  lemma NamesRebuildRecord(id: string, record: string)
    requires id != BUILTIN && record != NO_RECORD && Split(id)[0] != "" && |Split(id)| >= 3
    ensures var parts := Split(id);
      var r := NamesOf(id, record);
      (r.Some? <==> parts[|parts| - 2] == record)
      && (r.Some? ==> r.value.found && r.value.root == parts[0]
                      && r.value.namespaces + ROOT + record + ROOT + parts[|parts| - 1] == ROOT + id)
  {
    SplitJoins(id);
    var parts := Split(id);
    assert parts[..|parts| - 1][..|parts| - 2] == parts[..|parts| - 2];
  }
}
