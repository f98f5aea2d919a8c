/** The `urn:publicid:` names of RFC 3151: their transcription from public identifiers, and xmlCatalogUnWrapURN. */
module CatalogUrn {
  import opened Basics
  import opened CatalogText

  const XML_URN_PUBID := "urn:publicid:"
  const RESULT_SIZE := 2000

  predicate IsUrn(s: string) {
    XML_URN_PUBID <= s
  }

  /** One turn of the decoding loop: what is written, and how many characters are taken. */
  datatype Piece = Piece(text: string, taken: nat)

  /** The character a %-escape stands for, among those RFC 3151 uses. */
  function Escape(a: char, b: char): Option<char> {
    if a == '2' && b == 'B' then Some('+')
    else if a == '3' && b == 'A' then Some(':')
    else if a == '2' && b == 'F' then Some('/')
    else if a == '3' && b == 'B' then Some(';')
    else if a == '2' && b == '7' then Some('\'')
    else if a == '3' && b == 'F' then Some('?')
    else if a == '2' && b == '3' then Some('#')
    else if a == '2' && b == '5' then Some('%')
    else None
  }

  function Decode(u: string): (p: Piece)
    requires u != []
    ensures 1 <= p.taken <= |u| && 1 <= |p.text| <= 2
  {
    if u[0] == '+' then Piece(" ", 1)
    else if u[0] == ':' then Piece("//", 1)
    else if u[0] == ';' then Piece("::", 1)
    else if u[0] == '%' && |u| > 2 && Escape(u[1], u[2]).Some? then Piece([Escape(u[1], u[2]).value], 3)
    else Piece([u[0]], 1)
  }

  /** The whole decoding, stopping once more than RESULT_SIZE - 4 characters are there; `i` are there already. */
  function Unwrapped(u: string, i: nat): string
    decreases |u|
  {
    if u == [] || i > RESULT_SIZE - 4 then []
    else Decode(u).text + Unwrapped(u[Decode(u).taken..], i + |Decode(u).text|)
  }

  /** The transcription of RFC 3151, for a normalised public identifier. */
  function Transcribe(p: string): string
    decreases |p|
  {
    if p == [] then []
    else if |p| > 1 && p[0] == '/' && p[1] == '/' then ":" + Transcribe(p[2..])
    else if |p| > 1 && p[0] == ':' && p[1] == ':' then ";" + Transcribe(p[2..])
    else TranscribeOne(p[0]) + Transcribe(p[1..])
  }

  function TranscribeOne(c: char): (t: string)
    ensures t != []
  {
    match c
    case ' ' => "+"
    case '+' => "%2B"
    case ':' => "%3A"
    case '/' => "%2F"
    case ';' => "%3B"
    case '\'' => "%27"
    case '?' => "%3F"
    case '#' => "%23"
    case '%' => "%25"
    case _ => [c]
  }

  /** How much of `p` is decoded before the result is full. */
  function Fits(p: string, i: nat): nat
    decreases |p|
  {
    if p == [] || i > RESULT_SIZE - 4 then 0
    else if Doubled(p) then 2 + Fits(p[2..], i + 2)
    else 1 + Fits(p[1..], i + 1)
  }

  predicate Doubled(p: string) {
    |p| > 1 && p[0] == p[1] && (p[0] == '/' || p[0] == ':')
  }

  lemma {:induction false} FitsBounds(p: string, i: nat)
    ensures Fits(p, i) <= |p|
    ensures i <= RESULT_SIZE - 2 ==> i + Fits(p, i) <= RESULT_SIZE - 2
    ensures i + |p| <= RESULT_SIZE - 3 ==> Fits(p, i) == |p|
    ensures Fits(p, i) < |p| ==> i + Fits(p, i) > RESULT_SIZE - 4
    decreases |p|
  {
    if p != [] && i <= RESULT_SIZE - 4 {
      if Doubled(p) {
        FitsBounds(p[2..], i + 2);
      } else {
        FitsBounds(p[1..], i + 1);
      }
    }
  }

  /** Decoding a transcription gives back what fits of the identifier. */
  lemma {:induction false} UnwrapInverts(p: string, i: nat)
    ensures Fits(p, i) <= |p| && Unwrapped(Transcribe(p), i) == p[..Fits(p, i)]
    decreases |p|
  {
    hide Decode, TranscribeOne, Code, Transcribe;
    FitsBounds(p, i);
    if p == [] {
      TranscribeNothing();
    } else if i <= RESULT_SIZE - 4 {
      var n := if Doubled(p) then 2 else 1;
      UnwrapInverts(p[n..], i + n);
      UnwrapOnePiece(p, i, n);
      hide Unwrapped, Fits;
      assert p[..Fits(p, i)] == p[..n] + p[n..][..Fits(p[n..], i + n)];
    }
  }

  lemma UnwrapOnePiece(p: string, i: nat, n: nat)
    requires p != [] && i <= RESULT_SIZE - 4 && n == if Doubled(p) then 2 else 1
    ensures Unwrapped(Transcribe(p), i) == p[..n] + Unwrapped(Transcribe(p[n..]), i + n)
    ensures Fits(p, i) == n + Fits(p[n..], i + n)
  {
    hide Decode, TranscribeOne, Code, Transcribe;
    TranscribeStep(p);
    DecodesPiece(p, Transcribe(p[n..]));
    assert Transcribe(p)[|Code(p)|..] == Transcribe(p[n..]);
  }

  lemma TranscribeNothing()
    ensures Transcribe("") == ""
  {
  }

  lemma TranscribeStep(p: string)
    requires p != []
    ensures Transcribe(p) == Code(p) + Transcribe(p[if Doubled(p) then 2 else 1..])
    ensures Transcribe(p) != []
  {
    hide TranscribeOne;
  }

  /** What the transcription starts with */
  function Code(p: string): string
    requires p != []
  {
    if Doubled(p) then (if p[0] == '/' then ":" else ";") else TranscribeOne(p[0])
  }

  lemma DecodesPiece(p: string, rest: string)
    requires p != []
    ensures Decode(Code(p) + rest) == Piece(if Doubled(p) then p[..2] else p[..1], |Code(p)|)
  {
    var u := Code(p) + rest;
    if Doubled(p) {
      assert u[0] == Code(p)[0];
    } else {
      assert forall k :: 0 <= k < |TranscribeOne(p[0])| ==> u[k] == TranscribeOne(p[0])[k];
    }
  }

  /** So decoding is a left inverse on identifiers of up to 1997 characters, and always gives a prefix. */
  lemma UnwrapIsLeftInverse(p: string)
    ensures Unwrapped(Transcribe(p), 0) <= p
    ensures |p| <= 1997 ==> Unwrapped(Transcribe(p), 0) == p
    ensures |p| > 1998 ==> |Unwrapped(Transcribe(p), 0)| <= 1998
  {
    UnwrapInverts(p, 0);
    FitsBounds(p, 0);
  }

  // ---- what decoding makes of any text ----

  /** The characters RFC 3151 escapes */
  const ESCAPED := "+:/;'?#%"

  function HexDigit(n: nat): char
    requires n < 16
  {
    "0123456789ABCDEF"[n]
  }

  /** A percent sign and the upper-case hexadecimal code of the character */
  function EscapeOf(c: char): (e: string)
    requires c in ESCAPED
    ensures |e| == 3
  {
    assert ESCAPED == ['+', ':', '/', ';', '\'', '?', '#', '%'];
    ['%', HexDigit(c as int / 16), HexDigit(c as int % 16)]
  }

  lemma EscapesAre()
    ensures EscapeOf('+') == "%2B" && EscapeOf(':') == "%3A" && EscapeOf('/') == "%2F" && EscapeOf(';') == "%3B"
    ensures EscapeOf('\'') == "%27" && EscapeOf('?') == "%3F" && EscapeOf('#') == "%23" && EscapeOf('%') == "%25"
  {
  }

  lemma EscapeIs(a: char, b: char)
    ensures Escape(a, b).Some? ==> Escape(a, b).value in ESCAPED && EscapeOf(Escape(a, b).value) == ['%', a, b]
    ensures forall c :: c in ESCAPED && EscapeOf(c) == ['%', a, b] ==> Escape(a, b) == Some(c)
  {
    EscapesAre();
    hide EscapeOf;
    assert ESCAPED == ['+', ':', '/', ';', '\'', '?', '#', '%'];
    forall c | c in ESCAPED && EscapeOf(c) == ['%', a, b]
      ensures Escape(a, b) == Some(c)
    {
      assert EscapeOf(c)[1] == a && EscapeOf(c)[2] == b;
    }
  }

  /** One turn, for any text: other characters, and a percent sign without one of the escapes behind it, stand for themselves. */
  lemma DecodeIs(u: string)
    requires u != []
    ensures u[0] == '+' ==> Decode(u) == Piece(" ", 1)
    ensures u[0] == ':' ==> Decode(u) == Piece("//", 1)
    ensures u[0] == ';' ==> Decode(u) == Piece("::", 1)
    ensures forall c :: c in ESCAPED && EscapeOf(c) <= u ==> Decode(u) == Piece([c], 3)
    ensures u[0] !in "+:;" && (forall c :: c in ESCAPED ==> !(EscapeOf(c) <= u)) ==> Decode(u) == Piece([u[0]], 1)
  {
    if u[0] == '%' && |u| > 2 {
      EscapeIs(u[1], u[2]);
      assert u[..3] == ['%', u[1], u[2]];
      forall c | c in ESCAPED && EscapeOf(c) <= u ensures EscapeOf(c) == u[..3] {
      }
    } else {
      forall c | c in ESCAPED ensures !(EscapeOf(c) <= u) {
        assert EscapeOf(c)[0] == '%';
      }
    }
    hide EscapeOf, Escape;
  }

  /** And all of it, up to the limit */
  lemma UnwrappedIs(u: string, i: nat)
    ensures u == [] || i > 1996 ==> Unwrapped(u, i) == []
    ensures u != [] && i <= 1996 ==>
      Unwrapped(u, i) == Decode(u).text + Unwrapped(u[Decode(u).taken..], i + |Decode(u).text|)
  {
  }

  // ---- percent signs, which bound the repeated decoding ----

  function Percents(s: string): nat {
    if s == [] then 0 else (if s[0] == '%' then 1 else 0) + Percents(s[1..])
  }

  lemma {:induction false} PercentsConcat(a: string, b: string)
    ensures Percents(a + b) == Percents(a) + Percents(b)
  {
    if a == [] {
      assert a + b == b;
    } else {
      assert (a + b)[1..] == a[1..] + b;
      PercentsConcat(a[1..], b);
    }
  }

  lemma PiecePercents(u: string)
    requires u != []
    ensures Percents(Decode(u).text) <= Percents(u[..Decode(u).taken])
    ensures Percents(u) == Percents(u[..Decode(u).taken]) + Percents(u[Decode(u).taken..])
    ensures Decode(u).taken == 3 && Decode(u).text != "%" ==> Percents(Decode(u).text) < Percents(u[..Decode(u).taken])
  {
    var p := Decode(u);
    assert u == u[..p.taken] + u[p.taken..];
    PercentsConcat(u[..p.taken], u[p.taken..]);
    assert u[..p.taken][0] == u[0];
    assert Percents(u[..1]) == if u[0] == '%' then 1 else 0;
    if |p.text| == 1 {
      assert p.text[1..] == [];
    } else {
      assert p.text[1..][1..] == [];
    }
  }

  /** Decoding never adds a percent sign. */
  lemma {:induction false} UnwrapPercents(u: string, i: nat)
    ensures Percents(Unwrapped(u, i)) <= Percents(u)
    decreases |u|
  {
    if u != [] && i <= RESULT_SIZE - 4 {
      PiecePercents(u);
      UnwrapPercents(u[Decode(u).taken..], i + |Decode(u).text|);
      PercentsConcat(Decode(u).text, Unwrapped(u[Decode(u).taken..], i + |Decode(u).text|));
    }
  }

  /** An identifier that decodes to another `urn:publicid:` name, once normalised, loses a percent sign on the way. */
  lemma {:induction false} UnwrapLosesPercent(u: string, i: nat)
    requires IsUrn(Normal(Unwrapped(u, i)))
    ensures Percents(Unwrapped(u, i)) < Percents(u)
    decreases |u|
  {
    hide Unwrapped, Percents;
    var t := Unwrapped(u, i);
    if IsBlank(t[0]) {
      BlankPiece(u, i);
      UnwrapLosesPercent(u[1..], i + 1);
    } else {
      FirstWord(t);
      PlainPiece(u, i);
      PlainPiece(u[1..], i + 1);
      PlainPiece(u[1..][1..], i + 2);
      ColonPiece(u[1..][1..][1..], i + 3);
    }
  }

  /** If nothing blank comes first, the start of the normal form is the start of the string. */
  lemma FirstWord(t: string)
    requires t != [] && !IsBlank(t[0]) && IsUrn(Normal(t))
    ensures |t| >= 5 && t[0] == 'u' && t[1..][0] == 'r' && t[1..][1..][0] == 'n'
    ensures |t[1..][1..][1..]| >= 2 && t[1..][1..][1..][0] == ':' && t[1..][1..][1..][1] == 'p'
  {
    hide Normal;
    EmitWords(t);
    var n := Normal(t);
    Letters(n);
    assert n == [t[0]] + Emit(t[1..], true, false);
    EmitHead(t[1..]);
    EmitHead(t[1..][1..]);
    EmitHead(t[1..][1..][1..]);
    EmitHead(t[1..][1..][1..][1..]);
  }

  lemma EmitHead(s: string)
    requires Emit(s, true, false) != [] && Emit(s, true, false)[0] != ' '
    ensures s != [] && s[0] == Emit(s, true, false)[0] && Emit(s, true, false)[1..] == Emit(s[1..], true, false)
  {
    if s != [] {
      EmitPending(s[1..]);
    }
  }

  /** A leading blank is decoded from one character that is no percent sign. */
  lemma BlankPiece(u: string, i: nat)
    requires Unwrapped(u, i) != [] && IsBlank(Unwrapped(u, i)[0])
    ensures u != [] && Normal(Unwrapped(u, i)) == Normal(Unwrapped(u[1..], i + 1))
    ensures Percents(Unwrapped(u, i)) == Percents(Unwrapped(u[1..], i + 1)) && Percents(u) == Percents(u[1..])
  {
    assert Unwrapped(u, i)[0] == Decode(u).text[0];
    assert |Decode(u).text| == 1 && Decode(u).taken == 1;
    assert Unwrapped(u, i)[1..] == Unwrapped(u[1..], i + 1);
  }

  lemma Letters(t: string)
    requires IsUrn(t)
    ensures t[0] == 'u' && t[1..][0] == 'r' && t[1..][1..][0] == 'n'
    ensures |t[1..][1..][1..]| >= 2 && t[1..][1..][1..][0] == ':' && t[1..][1..][1..][1] == 'p'
  {
    assert t[..5] == XML_URN_PUBID[..5];
    assert forall i :: 0 <= i < 5 ==> t[i] == t[..5][i];
  }

  /** A letter comes from the same letter. */
  lemma PlainPiece(u: string, i: nat)
    requires Unwrapped(u, i) != [] && Unwrapped(u, i)[0] in "urn"
    ensures u != [] && Unwrapped(u, i)[1..] == Unwrapped(u[1..], i + 1)
    ensures Percents(Unwrapped(u, i)) == Percents(Unwrapped(u[1..], i + 1)) && Percents(u) == Percents(u[1..])
  {
    assert Unwrapped(u, i)[0] == Decode(u).text[0];
    assert Decode(u) == Piece([u[0]], 1);
  }

  /** A colon that is not followed by a colon comes from its escape. */
  lemma ColonPiece(u: string, i: nat)
    requires |Unwrapped(u, i)| >= 2 && Unwrapped(u, i)[0] == ':' && Unwrapped(u, i)[1] != ':'
    ensures Percents(Unwrapped(u, i)) < Percents(u)
  {
    var p := Decode(u);
    var rest := Unwrapped(u[p.taken..], i + |p.text|);
    assert Unwrapped(u, i) == p.text + rest;
    assert p.text[0] == ':' && p.text != "::";
    assert p == Piece(":", 3);
    PiecePercents(u);
    UnwrapPercents(u[3..], i + 1);
    PercentsConcat(p.text, rest);
  }

  lemma {:induction false} EmitPercents(s: string, started: bool, white: bool)
    ensures Percents(Emit(s, started, white)) == Percents(s)
  {
    if s != [] {
      if IsBlank(s[0]) {
        EmitPercents(s[1..], started, started || white);
      } else {
        EmitPercents(s[1..], true, false);
        var e := Emit(s[1..], true, false);
        PercentsConcat((if white then " " else "") + [s[0]], e);
        PercentsConcat(if white then " " else "", [s[0]]);
        assert Percents(" ") == 0 && [s[0]][1..] == [];
      }
    }
  }

  /** Neither does normalising. */
  lemma NormalPercents(s: string)
    ensures Percents(Normal(s)) == Percents(s)
  {
    EmitWords(s);
    EmitPercents(s, false, false);
  }

  /** xmlCatalogUnWrapURN: the result buffer of 2000 characters is filled from the left, with a zero behind. */
  method UnWrapURN(urn: string) returns (ret: Option<string>)
    ensures ret == None <==> !IsUrn(urn)
    ensures ret.Some? ==> ret.value == Unwrapped(urn[|XML_URN_PUBID|..], 0)
    ensures ret.Some? ==> |ret.value| <= RESULT_SIZE - 2
  {
    if !(XML_URN_PUBID <= urn) {
      return None;
    }
    var result := new char[RESULT_SIZE];
    var i := DecodeAll(urn[|XML_URN_PUBID|..], result);
    return Some(result[..i]);
  }

  lemma UnwrapStep(u: string, k: nat, i: nat, done: string)
    requires k < |u| && i <= RESULT_SIZE - 4
    ensures var p := Decode(u[k..]);
      k + p.taken <= |u| &&
      done + Unwrapped(u[k..], i) == done + p.text + Unwrapped(u[k + p.taken..], i + |p.text|)
  {
    var p := Decode(u[k..]);
    assert u[k..][p.taken..] == u[k + p.taken..];
  }

  method DecodeAll(u: string, result: array<char>) returns (i: nat)
    requires result.Length == RESULT_SIZE
    modifies result
    ensures i <= RESULT_SIZE - 2 && result[..i] == Unwrapped(u, 0) && result[i] == '\0'
  {
    hide Decode;
    i := 0;
    var k := 0;
    while k < |u|
      invariant 0 <= k <= |u| && i <= RESULT_SIZE - 2
      invariant result[..i] + Unwrapped(u[k..], i) == Unwrapped(u, 0)
    {
      if i > RESULT_SIZE - 4 {
        break;
      }
      ghost var done := result[..i];
      var n, taken := WritePiece(u, k, result, i);
      UnwrapStep(u, k, i, done);
      i, k := i + n, k + taken;
    }
    assert Unwrapped(u[k..], i) == [];
    result[i] := '\0';
  }

  /** One turn of the loop of xmlCatalogUnWrapURN */
  method WritePiece(u: string, k: nat, result: array<char>, i: nat) returns (n: nat, taken: nat)
    requires k < |u| && i + 2 <= result.Length
    modifies result
    ensures n == |Decode(u[k..]).text| && taken == Decode(u[k..]).taken
    ensures result[..i + n] == old(result[..i]) + Decode(u[k..]).text
  {
    n, taken := 1, 1;
    if u[k] == '+' {
      result[i] := ' ';
    } else if u[k] == ':' {
      result[i], result[i + 1] := '/', '/';
      n := 2;
    } else if u[k] == ';' {
      result[i], result[i + 1] := ':', ':';
      n := 2;
    } else if u[k] == '%' && k + 2 < |u| && Escape(u[k + 1], u[k + 2]).Some? {
      result[i] := Escape(u[k + 1], u[k + 2]).value;
      taken := 3;
    } else {
      result[i] := u[k];
    }
    assert u[k..][0] == u[k];
  }
}
