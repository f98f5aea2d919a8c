/** Public identifiers in catalog.c: their normal form, and their transcription as `urn:publicid:` names. */
module CatalogText {
  import opened Basics

  // ---- normalisation (section 6.2 of the OASIS XML Catalogs working draft of 6 August 2001) ----

  /** xmlIsBlank_ch */
  predicate IsBlank(c: char) {
    c == ' ' || c == '\t' || c == '\n' || c == '\r'
  }

  function WordLen(s: string): (k: nat)
    ensures k <= |s|
  {
    if s == [] || IsBlank(s[0]) then 0 else 1 + WordLen(s[1..])
  }

  function Words(s: string): seq<string>
    decreases |s|
  {
    if s == [] then []
    else if IsBlank(s[0]) then Words(s[1..])
    else [s[..WordLen(s)]] + Words(s[WordLen(s)..])
  }

  function Join(words: seq<string>): string {
    if words == [] then ""
    else if |words| == 1 then words[0]
    else words[0] + " " + Join(words[1..])
  }

  /** The normal form: the blank-separated words with one space between them. */
  function Normal(s: string): string {
    Join(Words(s))
  }

  /** What the copying loop still has to write, given whether it has written anything and whether a blank is pending. */
  function Emit(s: string, started: bool, white: bool): string {
    if s == [] then []
    else if IsBlank(s[0]) then Emit(s[1..], started, started || white)
    else (if white then " " else "") + [s[0]] + Emit(s[1..], true, false)
  }

  /** Whether the checking loop ends with `ok && !white`. */
  predicate Clean(s: string, white: bool) {
    if s == [] then !white
    else if IsBlank(s[0]) then s[0] == ' ' && !white && Clean(s[1..], true)
    else Clean(s[1..], false)
  }

  /** Inside a word the loop writes the rest of the word. */
  lemma {:induction false} EmitWord(s: string)
    ensures Emit(s, true, false) == s[..WordLen(s)] + Emit(s[WordLen(s)..], true, false)
  {
    if s != [] && !IsBlank(s[0]) {
      EmitWord(s[1..]);
      assert s[1..][WordLen(s[1..])..] == s[WordLen(s)..];
      assert s[..WordLen(s)] == [s[0]] + s[1..][..WordLen(s[1..])];
    }
  }

  /** With a blank pending it writes a space and the remaining words, if there are any. */
  lemma {:induction false} EmitPending(s: string)
    ensures Emit(s, true, true) == if Words(s) == [] then "" else " " + Normal(s)
    decreases |s|
  {
    if s == [] {
    } else if IsBlank(s[0]) {
      EmitPending(s[1..]);
    } else {
      EmitPending(s[WordLen(s)..]);
      AfterWord(s);
      EmitWord(s);
      assert " " + [s[0]] + Emit(s[1..], true, false) == " " + ([s[0]] + Emit(s[1..], true, false));
      assert "" + [s[0]] == [s[0]];
    }
  }

  /** From the start it writes the normal form. */
  lemma {:induction false} EmitWords(s: string)
    ensures Emit(s, false, false) == Normal(s)
    decreases |s|
  {
    if s == [] {
    } else if IsBlank(s[0]) {
      EmitWords(s[1..]);
    } else {
      EmitPending(s[WordLen(s)..]);
      AfterWord(s);
      EmitWord(s);
    }
  }

  /** What follows a word is either nothing but blanks, or a space and the remaining words. */
  lemma AfterWord(s: string)
    requires s != [] && !IsBlank(s[0])
    requires var t := s[WordLen(s)..]; Emit(t, true, true) == if Words(t) == [] then "" else " " + Join(Words(t))
    ensures Join(Words(s)) == s[..WordLen(s)] + Emit(s[WordLen(s)..], true, false)
  {
    var t := s[WordLen(s)..];
    WordEnds(s);
    assert t != [] ==> Emit(t, true, false) == Emit(t, true, true);
    assert Words(s) == [s[..WordLen(s)]] + Words(t);
    assert Words(s)[1..] == Words(t);
  }

  lemma {:induction false} WordEnds(s: string)
    ensures WordLen(s) < |s| ==> IsBlank(s[WordLen(s)])
  {
    if s != [] && !IsBlank(s[0]) {
      WordEnds(s[1..]);
    }
  }

  /** A clean string is copied unchanged. */
  lemma {:induction false} CleanIsKept(s: string)
    ensures Clean(s, false) ==> Emit(s, true, false) == s
    ensures Clean(s, true) ==> Emit(s, true, true) == " " + s && Emit(s, false, false) == s
  {
    if s != [] {
      CleanIsKept(s[1..]);
    }
  }

  /** What the copying loop writes is clean. */
  lemma {:induction false} EmitIsClean(s: string)
    ensures Clean(Emit(s, true, false), false)
    ensures Emit(s, true, true) == [] || (Emit(s, true, true)[0] == ' ' && Clean(Emit(s, true, true)[1..], true))
    ensures Emit(s, false, false) == [] || Clean(Emit(s, false, false), true)
  {
    if s != [] {
      EmitIsClean(s[1..]);
      if !IsBlank(s[0]) {
        var e := Emit(s[1..], true, false);
        assert ([s[0]] + e)[1..] == e && ("" + [s[0]] + e) == [s[0]] + e;
        assert (" " + [s[0]] + e)[1..] == [s[0]] + e;
      }
    }
  }

  lemma {:induction false} EmitShrinks(s: string, started: bool, white: bool)
    ensures |Emit(s, started, white)| <= |s| + if white then 1 else 0
  {
    if s != [] {
      EmitShrinks(s[1..], started, started || white);
      EmitShrinks(s[1..], true, false);
    }
  }

  /** The check of the first loop: it accepts exactly the non-empty strings that are their own normal form. */
  lemma CleanIsNormal(s: string)
    ensures Clean(s, true) <==> s != [] && Normal(s) == s
  {
    EmitWords(s);
    CleanIsKept(s);
    EmitIsClean(s);
  }

  /** Normalising never lengthens a string, and normalising again changes nothing. */
  lemma NormalIsIdempotent(s: string)
    ensures Normal(Normal(s)) == Normal(s) && |Normal(s)| <= |s|
  {
    EmitWords(s);
    EmitIsClean(s);
    EmitShrinks(s, false, false);
    if Normal(s) != [] {
      CleanIsNormal(Normal(s));
    }
  }

  /** xmlCatalogNormalizePublic */
  method NormalizePublic(pubID: Option<string>) returns (ret: Option<string>)
    ensures pubID == None ==> ret == None
    ensures pubID.Some? ==> (ret == None <==> pubID.value != [] && Normal(pubID.value) == pubID.value)
    ensures ret.Some? ==> ret.value == Normal(pubID.value)
  {
    if pubID == None {
      return None;
    }
    var s := pubID.value;
    var ok, white := true, true;
    var p := 0;
    while p < |s| && ok
      invariant p <= |s| && (!ok ==> !Clean(s, true))
      invariant ok ==> Clean(s, true) == Clean(s[p..], white)
    {
      if !IsBlank(s[p]) {
        white := false;
      } else if s[p] == ' ' && !white {
        white := true;
      } else {
        ok := false;
      }
      p := p + 1;
    }
    CleanIsNormal(s);
    if ok && !white {
      return None;
    }
    EmitWords(s);
    var buf := new char[|s| + 1](i requires 0 <= i <= |s| => if i < |s| then s[i] else '\0');
    var q := CopyWords(s, buf);
    return Some(buf[..q]);
  }

  /** The second loop: words are moved up in the buffer, with one space between them. */
  method CopyWords(s: string, buf: array<char>) returns (q: nat)
    requires buf.Length == |s| + 1
    modifies buf
    ensures q <= |s| && buf[..q] == Emit(s, false, false) && buf[q] == '\0'
  {
    q := 0;
    var white := false;
    for p := 0 to |s|
      invariant q + (if white then 1 else 0) <= p && (white ==> q > 0)
      invariant buf[..q] + Emit(s[p..], q > 0, white) == Emit(s, false, false)
    {
      assert s[p..][1..] == s[p + 1..];
      if IsBlank(s[p]) {
        if q != 0 {
          white := true;
        }
      } else {
        if white {
          buf[q] := ' ';
          q := q + 1;
          white := false;
        }
        buf[q] := s[p];
        q := q + 1;
      }
    }
    buf[q] := '\0';
  }
}
