/** The text the encoders of entities.c write, character by character, in bytes. */
module EntityOutput {
  import opened Basics
  import opened EntityText

  // ---- numerals ----

  /** `d` is `n` in digits and upper-case letters, without leading zeros. */
  predicate IsNumeral(d: seq<byte>, n: nat, base: nat) {
    d != [] && Alphanumeric(d) && Number(d, base) == Some(n) && (|d| > 1 ==> d[0] != 48)
  }

  lemma {:induction false} DigitsAreNumeral(n: nat, base: nat)
    requires base == 10 || base == 16
    ensures IsNumeral(Digits(n, base), n, base) && Digits(n, base) != [] && (n > 0 ==> Digits(n, base)[0] != 48)
    decreases n
  {
    NumberOfDigits(n, base);
    if n >= base {
      DigitsAreNumeral(n / base, base);
      NumberOfDigits(n / base, base);
      hide Number, Alphanumeric;
    }
  }

  /** &#ddd; */
  predicate IsDecimal(t: seq<byte>, n: nat) {
    |t| > 3 && t[..2] == [38, 35] && t[|t| - 1] == 59 && IsNumeral(t[2..|t| - 1], n, 10)
  }

  /** &#xHHH; */
  predicate IsHexadecimal(t: seq<byte>, n: nat) {
    |t| > 4 && t[..3] == [38, 35, 120] && t[|t| - 1] == 59 && IsNumeral(t[3..|t| - 1], n, 16)
  }

  lemma DecRefIsSo(n: nat)
    ensures IsDecimal(DecRef(n), n)
  {
    DigitsAreNumeral(n, 10);
    var d := Digits(n, 10);
    hide Digits, IsNumeral;
    var t := [38, 35] + d + [59];
    assert DecRef(n) == t && IsNumeral(d, n, 10) && d != [];
    hide DecRef;
    assert |t| == |d| + 3 && t[2..|t| - 1] == d;
  }

  lemma HexRefIsSo(n: nat)
    ensures IsHexadecimal(HexRef(n), n)
  {
    DigitsAreNumeral(n, 16);
    var d := Digits(n, 16);
    hide Digits, IsNumeral;
    var t := [38, 35, 120] + d + [59];
    assert HexRef(n) == t && IsNumeral(d, n, 16) && d != [];
    hide HexRef;
    assert |t| == |d| + 4 && t[3..|t| - 1] == d;
  }

  // ---- xmlEncodeEntitiesInternal ----

  /** The bytes that are copied */
  predicate Copied(b: byte) {
    b == 9 || b == 10 || (0x20 <= b < 0x80 && b != 60 && b != 62 && b != 38)
  }

  lemma ReturnIs()
    ensures DecRef(13) == [38, 35, 49, 51, 59]
  {
    assert Digits(13, 10) == Digits(1, 10) + [51] && Digits(1, 10) == [49];
  }

  /** An ASCII character in front of a text */
  lemma AsciiWritten(b: byte, rest: seq<byte>)
    requires b < 0x80 && Complete(rest)
    ensures Complete([b] + rest)
    ensures Encoded([b] + rest) ==
      (if b == 60 then [38, 108, 116, 59]
       else if b == 62 then [38, 103, 116, 59]
       else if b == 38 then [38, 97, 109, 112, 59]
       else if b == 13 then [38, 35, 49, 51, 59]
       else if Copied(b) then [b]
       else []) + Encoded(rest)
  {
    CompleteBehind(b, rest);
    assert ([b] + rest)[1..] == rest;
    ReturnIs();
    hide DecRef, Value, IsChar, Complete;
  }

  /** A round that takes more than one byte */
  lemma HexRound(s: seq<byte>)
    requires s != [] && 1 < Length(s[0]) <= |s| && IsChar(Value(s))
    ensures Taken(s) == Length(s[0]) && Written(s) == HexRef(Value(s))
  {
    hide HexRef, DecRef, Value, IsChar, Named;
  }

  lemma HexWritten(s: seq<byte>)
    requires Complete(s) && s != [] && Length(s[0]) > 1 && IsChar(Value(s))
    ensures Length(s[0]) <= |s| && Complete(s[Length(s[0])..])
    ensures Encoded(s) == HexRef(Value(s)) + Encoded(s[Length(s[0])..])
  {
    HexRound(s);
    CompleteTail(s, Length(s[0]));
    hide HexRef, Value, IsChar, Taken, Written, Length, Complete;
  }

  /** A round that takes one byte beyond ASCII */
  lemma DecimalWritten(b: byte, rest: seq<byte>) returns (t: seq<byte>)
    requires b >= 0x80 && Complete([b] + rest) && Complete(rest) && Taken([b] + rest) == 1
    ensures Encoded([b] + rest) == t + Encoded(rest) && IsDecimal(t, b)
  {
    t := DecRef(b);
    EncodedFollower(b, rest);
    DecRefIsSo(b);
  }

  /** The lower six bits of each byte, behind those of the lead byte */
  function Bits(lead: nat, f: seq<byte>): nat {
    if f == [] then lead else Bits(lead, f[..|f| - 1]) * 64 + f[|f| - 1] % 64
  }

  lemma BitsPush(lead: nat, f: seq<byte>, b: byte)
    ensures Bits(lead, f + [b]) == Bits(lead, f) * 64 + b % 64
  {
    assert (f + [b])[..|f|] == f;
  }

  /** The bits of a lead byte itself */
  function LeadBits(lead: byte): nat
    requires 0xc0 <= lead < 0xf8
  {
    if lead < 0xe0 then lead - 0xc0 else if lead < 0xf0 then lead - 0xe0 else lead - 0xf0
  }

  lemma {:induction false} FewBits(n: nat, f: seq<byte>)
    ensures |f| == 1 ==> Bits(n, f) == n * 64 + f[0] % 64
    ensures |f| == 2 ==> Bits(n, f) == (n * 64 + f[0] % 64) * 64 + f[1] % 64
    ensures |f| == 3 ==> Bits(n, f) == ((n * 64 + f[0] % 64) * 64 + f[1] % 64) * 64 + f[2] % 64
  {
    if 1 <= |f| {
      var front := f[..|f| - 1];
      FewBits(n, front);
      BitsPush(n, front, f[|f| - 1]);
      assert f == front + [f[|f| - 1]];
      hide Bits;
      assert front == [] ==> f == [f[0]] && front + [f[0]] == [f[0]];
    }
  }

  lemma BitsAreValue(lead: byte, f: seq<byte>, rest: seq<byte>)
    requires 0xc0 <= lead < 0xe0 ==> |f| == 1
    requires 0xe0 <= lead < 0xf0 ==> |f| == 2
    requires 0xf0 <= lead < 0xf8 ==> |f| == 3
    requires 0xc0 <= lead < 0xf8
    ensures Length(lead) == 1 + |f| && Value([lead] + f + rest) == Bits(LeadBits(lead), f)
  {
    var n := LeadBits(lead);
    FewBits(n, f);
    hide Bits;
    var v := Bits(n, f);
    var s := [lead] + f + rest;
    assert s[0] == lead && s[1] == f[0];
    if |f| == 1 {
      assert n == lead as int % 32;
    } else if |f| == 2 {
      assert n == lead as int % 16 && s[2] == f[1];
    } else {
      assert n == lead as int % 8 && s[2] == f[1] && s[3] == f[2];
    }
  }

  /** The bytes behind a lead byte count with their lower bits, whatever their upper ones are. */
  lemma LeadWritten(lead: byte, f: seq<byte>, rest: seq<byte>) returns (t: seq<byte>)
    requires 0xc0 <= lead < 0xe0 ==> |f| == 1
    requires 0xe0 <= lead < 0xf0 ==> |f| == 2
    requires 0xf0 <= lead < 0xf8 ==> |f| == 3
    requires 0xc0 <= lead < 0xf8
    requires Complete([lead] + f + rest)
    ensures Complete(f + rest) && Complete(rest)
    ensures var v := Bits(LeadBits(lead), f);
      if IsChar(v) then Encoded([lead] + f + rest) == t + Encoded(rest) && IsHexadecimal(t, v)
      else Encoded([lead] + f + rest) == t + Encoded(f + rest) && IsDecimal(t, lead)
  {
    var s := [lead] + f + rest;
    BitsAreValue(lead, f, rest);
    assert s[0] == lead && s[1..] == f + rest && s[1 + |f|..] == rest && s == [lead] + (f + rest);
    CompleteTail(s, 1);
    CompleteTail(s, 1 + |f|);
    hide IsHexadecimal, IsDecimal, HexRef, Encoded, Complete, IsChar, Value, Bits, Length;
    if IsChar(Value(s)) {
      HexWritten(s);
      HexRefIsSo(Value(s));
      t := HexRef(Value(s));
    } else {
      t := DecimalWritten(lead, f + rest);
    }
  }

  /** A character of XML beyond ASCII becomes one hexadecimal reference. */
  lemma CharacterWritten(c: int, rest: seq<byte>) returns (t: seq<byte>)
    requires 0x80 <= c <= 0xd7ff || 0xe000 <= c <= 0xfffd || 0x1_0000 <= c <= 0x10_ffff
    requires Complete(rest)
    ensures Complete(Utf8Of(c) + rest) && Encoded(Utf8Of(c) + rest) == t + Encoded(rest) && IsHexadecimal(t, c)
  {
    t := HexRef(c);
    HexRefIsSo(c);
    hide HexRef, IsHexadecimal, Value, Encoded;
    assert IsChar(c);
    var u := Utf8Of(c);
    CompleteFront(c, rest);
    Utf8Value(c, rest);
    hide Utf8Of, IsChar, Complete;
    assert (u + rest)[|u|..] == rest && (u + rest)[0] == u[0];
    HexWritten(u + rest);
  }

  /** A follower without a lead byte, or a byte that UTF-8 does not use, becomes a decimal reference to the byte. */
  lemma StrayWritten(b: byte, rest: seq<byte>) returns (t: seq<byte>)
    requires (0x80 <= b < 0xc0 || b >= 0xf8) && Complete(rest)
    ensures Complete([b] + rest) && Encoded([b] + rest) == t + Encoded(rest) && IsDecimal(t, b)
  {
    var s := [b] + rest;
    forall i | 0 <= i < |s| ensures i + Length(s[i]) <= |s| {
      assert i > 0 ==> s[i] == rest[i - 1];
    }
    hide IsDecimal, Encoded;
    t := DecimalWritten(b, rest);
  }

  /** References to these bytes, one after the other */
  ghost predicate AreDecimals(t: seq<byte>, u: seq<byte>)
    decreases |u|
  {
    if u == [] then t == [] else exists k :: 0 <= k <= |t| && IsDecimal(t[..k], u[0]) && AreDecimals(t[k..], u[1..])
  }

  lemma OneMore(first: seq<byte>, b: byte, more: seq<byte>, u: seq<byte>)
    requires IsDecimal(first, b) && AreDecimals(more, u)
    ensures AreDecimals(first + more, [b] + u)
  {
    hide IsDecimal;
    var t := first + more;
    assert t[..|first|] == first && t[|first|..] == more;
    assert ([b] + u)[1..] == u;
  }

  lemma {:induction false} StraysWritten(u: seq<byte>, rest: seq<byte>) returns (t: seq<byte>)
    requires (forall i :: 0 <= i < |u| ==> 0x80 <= u[i] < 0xc0) && Complete(rest)
    ensures Complete(u + rest) && Encoded(u + rest) == t + Encoded(rest) && AreDecimals(t, u)
    decreases |u|
  {
    hide IsDecimal, Encoded, Complete;
    if u == [] {
      assert u + rest == rest;
      t := [];
    } else {
      hide AreDecimals;
      var more := StraysWritten(u[1..], rest);
      var first := StrayWritten(u[0], u[1..] + rest);
      assert u + rest == [u[0]] + (u[1..] + rest);
      assert u == [u[0]] + u[1..];
      OneMore(first, u[0], more, u[1..]);
      t := first + more;
    }
  }

  lemma Followers(c: int)
    requires CodePoint(c)
    ensures forall i :: 1 <= i < |Utf8Of(c)| ==> 0x80 <= Utf8Of(c)[i] < 0xc0
  {
  }

  lemma NotTaken(c: int, rest: seq<byte>)
    requires CodePoint(c) && 0x80 <= c && !IsChar(c)
    ensures Utf8Of(c)[0] >= 0x80 && Length((Utf8Of(c) + rest)[0]) <= |Utf8Of(c) + rest| && Taken(Utf8Of(c) + rest) == 1
  {
    Utf8Value(c, rest);
    hide IsChar, Value;
  }

  /** A lead byte that is passed alone, and its followers */
  lemma BytesWritten(u: seq<byte>, rest: seq<byte>) returns (t: seq<byte>)
    requires u != [] && u[0] >= 0x80 && (forall i :: 1 <= i < |u| ==> 0x80 <= u[i] < 0xc0)
    requires Complete(rest) && Complete(u + rest) && Taken(u + rest) == 1
    ensures Encoded(u + rest) == t + Encoded(rest) && AreDecimals(t, u)
  {
    hide IsDecimal, AreDecimals, Encoded, Complete, Taken;
    var more := StraysWritten(u[1..], rest);
    assert u + rest == [u[0]] + (u[1..] + rest) && u == [u[0]] + u[1..];
    var first := DecimalWritten(u[0], u[1..] + rest);
    OneMore(first, u[0], more, u[1..]);
    t := first + more;
  }

  /** A code point beyond ASCII that XML does not allow becomes references to its bytes. */
  lemma NonCharacterWritten(c: int, rest: seq<byte>) returns (t: seq<byte>)
    requires 0xd800 <= c < 0xe000 || 0xfffe <= c <= 0xffff
    requires Complete(rest)
    ensures Complete(Utf8Of(c) + rest) && Encoded(Utf8Of(c) + rest) == t + Encoded(rest) && AreDecimals(t, Utf8Of(c))
  {
    var u := Utf8Of(c);
    CompleteFront(c, rest);
    Followers(c);
    NotTaken(c, rest);
    t := BytesWritten(u, rest);
  }

  /** What can occur in the output */
  predicate Writable(s: seq<byte>) {
    forall b :: b in s ==> Copied(b) || b == 38
  }

  lemma ReferencesAreWritable(n: nat)
    ensures Writable(DecRef(n)) && Writable(HexRef(n))
  {
    NumberOfDigits(n, 10);
    NumberOfDigits(n, 16);
    hide Digits, Number;
  }

  lemma WrittenIsWritable(s: seq<byte>)
    requires s != [] && Length(s[0]) <= |s|
    ensures Writable(Written(s))
  {
    ReferencesAreWritable(s[0]);
    ReferencesAreWritable(Value(s));
    hide Value, Taken, DecRef, HexRef;
  }

  lemma {:induction false} EncodedIsWritable(s: seq<byte>)
    requires Complete(s)
    ensures Writable(Encoded(s))
    decreases |s|
  {
    if s != [] {
      CompleteTail(s, Taken(s));
      EncodedIsWritable(s[Taken(s)..]);
      WrittenIsWritable(s);
      hide Written;
    }
  }

  /** The ampersands are what makes a writable text longer. */
  lemma {:induction false} WritableGrows(s: seq<byte>)
    requires Writable(s)
    ensures Complete(s) && |Encoded(s)| >= |s| && (38 in s ==> |Encoded(s)| > |s|)
    ensures 38 !in s ==> Encoded(s) == s
  {
    if s != [] {
      var rest := s[1..];
      assert s == [s[0]] + rest && s[0] in s;
      forall b | b in rest ensures b in s {
      }
      WritableGrows(rest);
      AsciiWritten(s[0], rest);
      hide Encoded;
    }
  }

  /** A text is left alone exactly when all its bytes are copied. */
  lemma EncodedIsCopyExactlyWhen(s: seq<byte>)
    requires Complete(s)
    ensures Encoded(s) == s <==> forall b :: b in s ==> Copied(b)
  {
    if Encoded(s) == s {
      EncodedIsWritable(s);
      WritableGrows(s);
    } else if forall b :: b in s ==> Copied(b) {
      WritableGrows(s);
    }
  }

  // ---- xmlEncodeSpecialChars ----

  predicate Special(b: byte) {
    b == 60 || b == 62 || b == 38 || b == 34 || b == 13
  }

  /** One byte in front of a text */
  lemma SpecialWritten(b: byte, rest: seq<byte>)
    ensures SpecialEncoded([b] + rest) ==
      (if b == 60 then [38, 108, 116, 59]
       else if b == 62 then [38, 103, 116, 59]
       else if b == 38 then [38, 97, 109, 112, 59]
       else if b == 34 then [38, 113, 117, 111, 116, 59]
       else if b == 13 then [38, 35, 49, 51, 59]
       else [b]) + SpecialEncoded(rest)
  {
    assert ([b] + rest)[1..] == rest;
    ReturnIs();
    hide DecRef;
  }

  /** A text is left alone exactly when it has none of the five. */
  lemma {:induction false} SpecialIsCopyExactlyWhen(s: seq<byte>)
    ensures |SpecialEncoded(s)| >= |s|
    ensures (forall b :: b in s ==> !Special(b)) ==> SpecialEncoded(s) == s
    ensures (exists b :: b in s && Special(b)) ==> |SpecialEncoded(s)| > |s|
  {
    if s != [] {
      var rest := s[1..];
      assert s == [s[0]] + rest && s[0] in s;
      SpecialIsCopyExactlyWhen(rest);
      SpecialWritten(s[0], rest);
      forall b | b in rest ensures b in s {
      }
      hide SpecialEncoded;
    }
  }
}
