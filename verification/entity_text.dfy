/** What the encoders of entities.c write, and a reader of references to check it against. */
module EntityText {
  import opened Basics

  // ---- numbers as digits ----

  function Digit(d: nat): byte
    requires d < 16
  {
    if d < 10 then d + 48 else d + 55
  }

  function DigitValue(b: byte, base: nat): Option<nat> {
    if 48 <= b < 58 && b - 48 < base then Some(b - 48)
    else if 65 <= b < 71 && b - 55 < base then Some(b - 55)
    else if 97 <= b < 103 && b - 87 < base then Some(b - 87)
    else None
  }

  function Digits(n: nat, base: nat): seq<byte>
    requires 2 <= base <= 16
  {
    if n < base then [Digit(n)] else Digits(n / base, base) + [Digit(n % base)]
  }

  function Number(s: seq<byte>, base: nat): Option<nat> {
    if s == [] then Some(0)
    else
      var n := Number(s[..|s| - 1], base);
      var d := DigitValue(s[|s| - 1], base);
      if n.Some? && d.Some? then Some(n.value * base + d.value) else None
  }

  predicate Alphanumeric(s: seq<byte>) {
    forall b :: b in s ==> 48 <= b < 58 || 65 <= b < 71
  }

  lemma DigitIs(d: nat, base: nat)
    requires d < base <= 16
    ensures DigitValue(Digit(d), base) == Some(d) && Alphanumeric([Digit(d)])
  {
  }

  lemma Divides(n: nat, base: nat)
    requires base == 10 || base == 16
    ensures n / base * base + n % base == n
  {
    if base == 10 {
      assert n / 10 * 10 + n % 10 == n;
    } else {
      assert n / 16 * 16 + n % 16 == n;
    }
  }

  lemma NumberPush(s: seq<byte>, b: byte, base: nat, n: nat, d: nat)
    requires Number(s, base) == Some(n) && DigitValue(b, base) == Some(d)
    ensures Number(s + [b], base) == Some(n * base + d)
  {
    assert (s + [b])[..|s|] == s;
  }

  lemma {:induction false} NumberOfDigits(n: nat, base: nat)
    requires base == 10 || base == 16
    ensures Digits(n, base) != [] && Alphanumeric(Digits(n, base)) && Number(Digits(n, base), base) == Some(n)
    decreases n
  {
    if n < base {
      assert Digits(n, base) == [] + [Digit(n)];
      DigitIs(n, base);
      assert Number([], base) == Some(0);
      NumberPush([], Digit(n), base, 0, n);
    } else {
      NumberOfDigits(n / base, base);
      DigitIs(n % base, base);
      NumberPush(Digits(n / base, base), Digit(n % base), base, n / base, n % base);
      Divides(n, base);
    }
  }

  // ---- characters and references ----

  const AMP: byte := 38
  const SEMI: byte := 59
  const LT: byte := 60
  const GT: byte := 62
  const QUOT: byte := 34
  const CR: byte := 13

  /** The production Char of section 2.2 of XML 1.0 */
  predicate IsChar(c: int) {
    c == 9 || c == 10 || c == 13 || 0x20 <= c <= 0xd7ff || 0xe000 <= c <= 0xfffd || 0x1_0000 <= c <= 0x10_ffff
  }

  function Named(name: seq<byte>): seq<byte> {
    [AMP] + name + [SEMI]
  }

  const LT_NAME: seq<byte> := [108, 116]
  const GT_NAME: seq<byte> := [103, 116]
  const AMP_NAME: seq<byte> := [97, 109, 112]
  const QUOT_NAME: seq<byte> := [113, 117, 111, 116]

  /** &#ddd; */
  function DecRef(n: nat): seq<byte> {
    Named([35] + Digits(n, 10))
  }

  /** &#xHHH; */
  function HexRef(n: nat): seq<byte> {
    Named([35, 120] + Digits(n, 16))
  }

  // ---- reading it back (sections 4.1 and 4.6 of XML 1.0) ----

  function SemicolonAt(s: seq<byte>): (k: nat)
    ensures k <= |s|
  {
    if s == [] || s[0] == SEMI then 0 else 1 + SemicolonAt(s[1..])
  }

  /** The character the reference with this body stands for */
  function Referenced(body: seq<byte>): Option<nat> {
    if body == LT_NAME then Some(LT)
    else if body == GT_NAME then Some(GT)
    else if body == AMP_NAME then Some(AMP)
    else if body == QUOT_NAME then Some(QUOT)
    else if |body| > 2 && body[0] == 35 && body[1] == 120 then Number(body[2..], 16)
    else if |body| > 1 && body[0] == 35 then Number(body[1..], 10)
    else None
  }

  function Decoded(s: seq<byte>): Option<seq<int>>
    decreases |s|
  {
    if s == [] then Some([])
    else if s[0] != AMP then
      var rest := Decoded(s[1..]);
      if rest.Some? then Some([s[0]] + rest.value) else None
    else
      var k := SemicolonAt(s);
      if k == |s| then None
      else
        var c := Referenced(s[1..k]);
        var rest := Decoded(s[k + 1..]);
        if c.Some? && rest.Some? then Some([c.value] + rest.value) else None
  }

  lemma {:induction false} SemicolonFound(body: seq<byte>, rest: seq<byte>)
    requires SEMI !in body
    ensures SemicolonAt(body + [SEMI] + rest) == |body|
  {
    var s := body + [SEMI] + rest;
    if body != [] {
      assert s[0] == body[0];
      assert s[1..] == body[1..] + [SEMI] + rest;
      SemicolonFound(body[1..], rest);
    }
  }

  /** The decoding of `text` is `front` followed by that of `rest`. */
  predicate DecodesWith(front: seq<int>, text: seq<byte>, rest: seq<byte>) {
    Decoded(rest).Some? ==> Decoded(text) == Some(front + Decoded(rest).value)
  }

  lemma DecodesInTurn(a: seq<int>, b: seq<int>, text: seq<byte>, more: seq<byte>, rest: seq<byte>)
    requires DecodesWith(a, text, more) && DecodesWith(b, more, rest)
    ensures DecodesWith(a + b, text, rest)
  {
    hide Decoded;
    if Decoded(rest).Some? {
      var v := Decoded(rest).value;
      assert a + (b + v) == a + b + v;
    }
  }

  lemma DecodesNothing(rest: seq<byte>)
    ensures DecodesWith([], rest, rest)
  {
    hide Decoded;
    if Decoded(rest).Some? {
      assert [] + Decoded(rest).value == Decoded(rest).value;
    }
  }

  /** A reference in front of a text is read as one character. */
  lemma DecodedReference(body: seq<byte>, c: nat, rest: seq<byte>)
    requires SEMI !in body && Referenced(body) == Some(c)
    ensures DecodesWith([c], Named(body) + rest, rest)
  {
    var s := Named(body) + rest;
    SemicolonFound([AMP] + body, rest);
    hide SemicolonAt, Referenced;
    assert s == [AMP] + body + [SEMI] + rest;
    assert s[1..|body| + 1] == body;
    assert s[|body| + 2..] == rest;
  }

  lemma DecodedPlain(b: byte, rest: seq<byte>)
    requires b != AMP
    ensures DecodesWith([b], [b] + rest, rest)
  {
    assert ([b] + rest)[1..] == rest;
  }

  lemma NumericReference(digits: seq<byte>, n: nat)
    requires digits != [] && Alphanumeric(digits)
    ensures Number(digits, 10) == Some(n) ==> Referenced([35] + digits) == Some(n)
    ensures Number(digits, 16) == Some(n) ==> Referenced([35, 120] + digits) == Some(n)
  {
    hide Number;
    var dec, hex := [35] + digits, [35, 120] + digits;
    assert digits[0] in digits && dec[1] == digits[0];
    assert dec[0] == 35 && hex[0] == 35 && hex[1] == 120;
    assert dec[1..] == digits && hex[2..] == digits;
  }

  lemma DecodedDecRef(n: nat, rest: seq<byte>)
    ensures DecodesWith([n], DecRef(n) + rest, rest)
  {
    NumberOfDigits(n, 10);
    var digits := Digits(n, 10);
    hide Digits, Number;
    NumericReference(digits, n);
    hide Decoded, Referenced;
    DecodedReference([35] + digits, n, rest);
  }

  lemma DecodedHexRef(n: nat, rest: seq<byte>)
    ensures DecodesWith([n], HexRef(n) + rest, rest)
  {
    NumberOfDigits(n, 16);
    var digits := Digits(n, 16);
    hide Digits, Number;
    NumericReference(digits, n);
    hide Decoded, Referenced;
    DecodedReference([35, 120] + digits, n, rest);
  }

  // ---- xmlEncodeSpecialChars ----

  function SpecialByte(b: byte): seq<byte> {
    if b == LT then Named(LT_NAME)
    else if b == GT then Named(GT_NAME)
    else if b == AMP then Named(AMP_NAME)
    else if b == QUOT then Named(QUOT_NAME)
    else if b == CR then DecRef(13)
    else [b]
  }

  function SpecialEncoded(s: seq<byte>): seq<byte> {
    if s == [] then [] else SpecialByte(s[0]) + SpecialEncoded(s[1..])
  }

  lemma SpecialByteDecodes(b: byte, rest: seq<byte>)
    ensures DecodesWith([b], SpecialByte(b) + rest, rest)
  {
    if b == LT {
      DecodedReference(LT_NAME, LT, rest);
    } else if b == GT {
      DecodedReference(GT_NAME, GT, rest);
    } else if b == AMP {
      DecodedReference(AMP_NAME, AMP, rest);
    } else if b == QUOT {
      DecodedReference(QUOT_NAME, QUOT, rest);
    } else if b == CR {
      DecodedDecRef(13, rest);
    } else {
      DecodedPlain(b, rest);
    }
  }

  /** The markup characters do not occur raw, and a carriage return does not either. */
  predicate NoMarkup(s: seq<byte>) {
    LT !in s && GT !in s && CR !in s
  }

  /** Whatever the bytes, reading the references in the output gives them back. */
  lemma {:induction false} SpecialIsInvertible(s: seq<byte>)
    ensures Decoded(SpecialEncoded(s)) == Some(s)
    ensures NoMarkup(SpecialEncoded(s)) && QUOT !in SpecialEncoded(s)
  {
    if s != [] {
      SpecialIsInvertible(s[1..]);
      SpecialByteDecodes(s[0], SpecialEncoded(s[1..]));
      SpecialByteClean(s[0]);
      assert [s[0] as int] + s[1..] == s;
    }
  }

  lemma SpecialByteClean(b: byte)
    ensures NoMarkup(SpecialByte(b)) && QUOT !in SpecialByte(b) && |SpecialByte(b)| <= 6
    ensures b != 0 ==> 0 !in SpecialByte(b)
  {
    NumberOfDigits(13, 10);
    assert Digits(13, 10) == [49, 51];
  }

  // ---- UTF-8 (section 3 of RFC 3629) ----

  /** The code points a lead byte and its followers can carry; 0 ends the string. */
  predicate CodePoint(c: int) {
    0 < c <= 0x10_ffff
  }

  predicate CodePoints(cps: seq<int>) {
    forall i :: 0 <= i < |cps| ==> CodePoint(cps[i])
  }

  function Utf8Of(c: int): seq<byte>
    requires CodePoint(c)
  {
    if c < 0x80 then [c]
    else if c < 0x800 then [0xc0 + c / 64, 0x80 + c % 64]
    else if c < 0x1_0000 then [0xe0 + c / 4096, 0x80 + c / 64 % 64, 0x80 + c % 64]
    else [0xf0 + c / 0x4_0000, 0x80 + c / 4096 % 64, 0x80 + c / 64 % 64, 0x80 + c % 64]
  }

  function Utf8(cps: seq<int>): seq<byte>
    requires CodePoints(cps)
  {
    if cps == [] then [] else Utf8Of(cps[0]) + Utf8(cps[1..])
  }

  // ---- xmlEncodeEntitiesInternal, without a document ----

  /** How many bytes the encoder takes for a character that starts with `b`; 1 also stands for no lead byte at all. */
  function Length(b: byte): nat {
    if b < 0xc0 then 1
    else if b < 0xe0 then 2
    else if b < 0xf0 then 3
    else if b < 0xf8 then 4
    else 1
  }

  /** The bits of `b` under the mask `m - 1` */
  function Low(b: byte, m: nat): nat
    requires m > 0
  {
    b as int % m
  }

  function Value(s: seq<byte>): nat
    requires s != [] && Length(s[0]) <= |s|
  {
    match Length(s[0])
    case 2 => Low(s[0], 32) * 64 + Low(s[1], 64)
    case 3 => (Low(s[0], 16) * 64 + Low(s[1], 64)) * 64 + Low(s[2], 64)
    case 4 => ((Low(s[0], 8) * 64 + Low(s[1], 64)) * 64 + Low(s[2], 64)) * 64 + Low(s[3], 64)
    case _ => 0
  }

  /** Every lead byte has its followers before the end of the string. */
  predicate Complete(s: seq<byte>) {
    forall i :: 0 <= i < |s| ==> i + Length(s[i]) <= |s|
  }

  /** The bytes the next round takes */
  function Taken(s: seq<byte>): (n: nat)
    requires s != [] && Length(s[0]) <= |s|
    ensures 1 <= n <= |s|
  {
    if s[0] >= 0xc0 && Length(s[0]) > 1 && IsChar(Value(s)) then Length(s[0]) else 1
  }

  /** What it writes for them: a character that XML does not allow becomes a reference to its first byte, or nothing. */
  function Written(s: seq<byte>): seq<byte>
    requires s != [] && Length(s[0]) <= |s|
  {
    var b := s[0];
    if b == LT then Named(LT_NAME)
    else if b == GT then Named(GT_NAME)
    else if b == AMP then Named(AMP_NAME)
    else if (0x20 <= b < 0x80) || b == 10 || b == 9 then [b]
    else if b >= 0x80 then if Taken(s) == 1 then DecRef(b) else HexRef(Value(s))
    else if b == CR then DecRef(b)
    else []
  }

  function Encoded(s: seq<byte>): seq<byte>
    requires Complete(s)
    decreases |s|
  {
    if s == [] then [] else
      CompleteTail(s, Taken(s));
      Written(s) + Encoded(s[Taken(s)..])
  }

  lemma CompleteTail(s: seq<byte>, n: nat)
    requires Complete(s) && n <= |s|
    ensures Complete(s[n..])
  {
    forall i | 0 <= i < |s| - n ensures i + Length(s[n..][i]) <= |s| - n {
      assert s[n..][i] == s[n + i];
    }
  }

  /** What is read back for one code point: itself, nothing, or its bytes one by one */
  function Seen(c: int): seq<int>
    requires CodePoint(c)
  {
    if IsChar(c) then [c] else if c < 0x80 then [] else Utf8Of(c)
  }

  function SeenAll(cps: seq<int>): seq<int>
    requires CodePoints(cps)
  {
    if cps == [] then [] else Seen(cps[0]) + SeenAll(cps[1..])
  }

  lemma Utf8Value(c: int, rest: seq<byte>)
    requires CodePoint(c)
    ensures var s := Utf8Of(c) + rest;
      c >= 0x80 ==> Length(s[0]) == |Utf8Of(c)| > 1 && s[0] >= 0xc0 && Value(s) == c
  {
    if 0x80 <= c < 0x800 {
      TwoBytes(c);
    } else if 0x800 <= c < 0x1_0000 {
      ThreeBytes(c);
    } else if c >= 0x1_0000 {
      FourBytes(c);
    }
  }

  lemma TwoBytes(c: nat)
    requires 0x80 <= c < 0x800
    ensures (0xc0 + c / 64) % 32 * 64 + (0x80 + c % 64) % 64 == c
  {
  }

  lemma ThreeBytes(c: nat)
    requires 0x800 <= c < 0x1_0000
    ensures ((0xe0 + c / 4096) % 16 * 64 + (0x80 + c / 64 % 64) % 64) * 64 + (0x80 + c % 64) % 64 == c
  {
    assert c / 4096 == c / 64 / 64;
  }

  lemma FourBytes(c: nat)
    requires 0x1_0000 <= c <= 0x10_ffff
    ensures (((0xf0 + c / 0x4_0000) % 8 * 64 + (0x80 + c / 4096 % 64) % 64) * 64 + (0x80 + c / 64 % 64) % 64) * 64
            + (0x80 + c % 64) % 64 == c
  {
    assert c / 4096 == c / 64 / 64 && c / 0x4_0000 == c / 64 / 64 / 64;
  }

  lemma CompleteFront(c: int, rest: seq<byte>)
    requires CodePoint(c) && Complete(rest)
    ensures Complete(Utf8Of(c) + rest)
  {
    var u := Utf8Of(c);
    forall i | 0 <= i < |u + rest| ensures i + Length((u + rest)[i]) <= |u + rest| {
      if i >= |u| {
        assert (u + rest)[i] == rest[i - |u|];
      }
    }
  }

  lemma {:induction false} Utf8Complete(cps: seq<int>)
    requires CodePoints(cps)
    ensures Complete(Utf8(cps)) && 0 !in Utf8(cps)
  {
    if cps != [] {
      Utf8Complete(cps[1..]);
      CompleteFront(cps[0], Utf8(cps[1..]));
    }
  }

  lemma EncodedFollower(b: byte, rest: seq<byte>)
    requires (0x80 <= b < 0xc0 || b >= 0xc0) && Complete([b] + rest) && Complete(rest)
    requires Taken([b] + rest) == 1
    ensures Encoded([b] + rest) == DecRef(b) + Encoded(rest)
  {
    assert ([b] + rest)[1..] == rest;
  }

  /** Stray followers are referenced one by one. */
  lemma {:induction false} FollowersSeen(u: seq<byte>, rest: seq<byte>)
    requires (forall i :: 0 <= i < |u| ==> 0x80 <= u[i] < 0xc0) && Complete(rest)
    ensures Complete(u + rest) && DecodesWith(u, Encoded(u + rest), Encoded(rest))
  {
    hide Decoded, DecRef, Encoded;
    if u == [] {
      assert u + rest == rest;
      DecodesNothing(Encoded(rest));
    } else {
      var s := u[1..] + rest;
      assert u + rest == [u[0]] + s;
      FollowersSeen(u[1..], rest);
      CompleteBehind(u[0], s);
      EncodedFollower(u[0], s);
      DecodedDecRef(u[0], Encoded(s));
      DecodesInTurn([u[0]], u[1..], Encoded([u[0]] + s), Encoded(s), Encoded(rest));
      assert [u[0] as int] + u[1..] == u;
    }
  }

  lemma CompleteBehind(b: byte, rest: seq<byte>)
    requires b < 0xc0 && Complete(rest)
    ensures Complete([b] + rest)
  {
    var s := [b] + rest;
    forall i | 0 <= i < |s| ensures i + Length(s[i]) <= |s| {
      assert i > 0 ==> s[i] == rest[i - 1];
    }
  }

  /** One code point in front of a text */
  lemma CodePointSeen(c: int, rest: seq<byte>)
    requires CodePoint(c) && Complete(rest)
    ensures Complete(Utf8Of(c) + rest) && DecodesWith(Seen(c), Encoded(Utf8Of(c) + rest), Encoded(rest))
  {
    hide Decoded, DecRef, HexRef, Named, Value, IsChar;
    var u := Utf8Of(c);
    CompleteFront(c, rest);
    Utf8Value(c, rest);
    assert (u + rest)[|u|..] == rest && (u + rest)[0] == u[0];
    if c < 0x80 {
      AsciiSeen(c, rest);
    } else if IsChar(c) {
      DecodedHexRef(c, Encoded(rest));
    } else {
      assert u == [u[0]] + u[1..] && u + rest == [u[0]] + (u[1..] + rest);
      FollowersSeen(u[1..], rest);
      EncodedFollower(u[0], u[1..] + rest);
      DecodedDecRef(u[0], Encoded(u[1..] + rest));
      DecodesInTurn([u[0]], u[1..], Encoded(u + rest), Encoded(u[1..] + rest), Encoded(rest));
      assert [u[0] as int] + u[1..] == u;
    }
  }

  lemma AsciiSeen(c: int, rest: seq<byte>)
    requires 0 < c < 0x80 && Complete([c] + rest) && Complete(rest)
    ensures DecodesWith(Seen(c), Encoded([c] + rest), Encoded(rest))
  {
    hide Decoded, DecRef;
    assert ([c] + rest)[1..] == rest;
    DecodesNothing(Encoded(rest));
    if c == LT {
      DecodedReference(LT_NAME, LT, Encoded(rest));
    } else if c == GT {
      DecodedReference(GT_NAME, GT, Encoded(rest));
    } else if c == AMP {
      DecodedReference(AMP_NAME, AMP, Encoded(rest));
    } else if c == CR {
      DecodedDecRef(13, Encoded(rest));
    } else if c >= 0x20 || c == 10 || c == 9 {
      DecodedPlain(c, Encoded(rest));
    } else {
      assert [] + Encoded(rest) == Encoded(rest);
    }
  }

  /** What is read back from the encoding of any code points */
  lemma {:induction false} EncodedIsSeen(cps: seq<int>)
    requires CodePoints(cps)
    ensures Complete(Utf8(cps)) && Decoded(Encoded(Utf8(cps))) == Some(SeenAll(cps))
  {
    if cps != [] {
      EncodedIsSeen(cps[1..]);
      CodePointSeen(cps[0], Utf8(cps[1..]));
    }
  }

  predicate AllChars(cps: seq<int>) {
    forall i :: 0 <= i < |cps| ==> IsChar(cps[i])
  }

  /** Reading the references gives the code points back exactly when XML allows all of them. */
  lemma {:induction false} EncodingIsInvertibleExactlyWhen(cps: seq<int>)
    requires CodePoints(cps)
    ensures Complete(Utf8(cps)) && (Decoded(Encoded(Utf8(cps))) == Some(cps) <==> AllChars(cps))
  {
    EncodedIsSeen(cps);
    SeenAllIs(cps);
  }

  lemma {:induction false} SeenAllIs(cps: seq<int>)
    requires CodePoints(cps)
    ensures AllChars(SeenAll(cps)) && (AllChars(cps) ==> SeenAll(cps) == cps)
  {
    if cps != [] {
      SeenAllIs(cps[1..]);
      SeenChars(cps[0]);
      if IsChar(cps[0]) {
        assert [cps[0]] + cps[1..] == cps;
      }
    }
  }

  lemma SeenChars(c: int)
    requires CodePoint(c)
    ensures AllChars(Seen(c))
  {
  }

  predicate Ascii(s: seq<byte>) {
    forall b :: b in s ==> b < 0x80
  }

  /** Whatever is encoded, the output is ASCII without raw markup characters and without a zero. */
  lemma {:induction false} EncodedIsAscii(s: seq<byte>)
    requires Complete(s) && 0 !in s
    ensures Clean(Encoded(s))
    decreases |s|
  {
    if s != [] {
      CompleteTail(s, Taken(s));
      EncodedIsAscii(s[Taken(s)..]);
      WrittenIsClean(s);
      hide Written;
    }
  }

  predicate Clean(s: seq<byte>) {
    Ascii(s) && NoMarkup(s) && 0 !in s
  }

  lemma ReferencesAreClean(n: nat)
    ensures Clean(DecRef(n)) && Clean(HexRef(n))
  {
    NumberOfDigits(n, 10);
    NumberOfDigits(n, 16);
    hide Digits, Number;
  }

  lemma WrittenIsClean(s: seq<byte>)
    requires s != [] && Length(s[0]) <= |s| && s[0] != 0
    ensures Clean(Written(s))
  {
    ReferencesAreClean(s[0]);
    ReferencesAreClean(Value(s));
    hide Value, DecRef, HexRef;
  }

  function Power(base: nat, k: nat): nat {
    if k == 0 then 1 else base * Power(base, k - 1)
  }

  lemma {:induction false} DigitsFit(n: nat, base: nat, k: nat)
    requires (base == 10 || base == 16) && 0 < k && n < Power(base, k)
    ensures |Digits(n, base)| <= k
    decreases k
  {
    if n >= base {
      assert n / base < Power(base, k - 1);
      DigitsFit(n / base, base, k - 1);
    }
  }

  /** One round writes at most ten bytes: the references fit the local buffer of eleven. */
  lemma WrittenFits(s: seq<byte>)
    requires s != [] && Length(s[0]) <= |s|
    ensures |Written(s)| <= 10
  {
    assert Power(10, 3) == 1000 && Power(16, 6) == 0x100_0000;
    DigitsFit(s[0], 10, 3);
    if IsChar(Value(s)) {
      DigitsFit(Value(s), 16, 6);
    }
    hide Value, Digits;
  }
}
