/** The encoders of entities.c: an output buffer that doubles, filled through a cursor. */
module Entities {
  import opened Basics
  import opened CStrings
  import opened EntityText

  /** growBufferReentrant */
  method Grow(buffer: array<byte>) returns (r: array<byte>)
    ensures fresh(r) && r.Length == 2 * buffer.Length && r[..buffer.Length] == buffer[..]
  {
    r := new byte[buffer.Length * 2];
    forall k | 0 <= k < buffer.Length {
      r[k] := buffer[k];
    }
  }

  /** 1000, or doublings of it */
  predicate Doubled(size: nat) {
    size == 1000 || (size > 1000 && size % 2 == 0 && Doubled(size / 2))
  }

  /** One round of output: more space if less than `room` is left, then the bytes of `piece` at the cursor */
  method Write(buffer: array<byte>, out: nat, room: nat, piece: seq<byte>) returns (b: array<byte>, o: nat)
    requires out < buffer.Length && |piece| < room <= buffer.Length
    modifies buffer
    ensures b == buffer || fresh(b)
    ensures b.Length == if out + room > buffer.Length then 2 * buffer.Length else buffer.Length
    ensures o == out + |piece| < b.Length
    ensures b[..o] == old(buffer[..out]) + piece
  {
    b := buffer;
    ghost var was := buffer[..out];
    if out + room > b.Length {
      b := Grow(b);
      assert b[..out] == was;
    }
    o := out + |piece|;
    forall k | 0 <= k < |piece| {
      b[out + k] := piece[k];
    }
    assert b[..out] == was && b[out..o] == piece;
  }

  /** The terminator */
  method Finish(buffer: array<byte>, out: nat)
    requires out < buffer.Length && 0 !in buffer[..out]
    modifies buffer
    ensures 0 in buffer[..] && CString(buffer[..]) == old(buffer[..out])
  {
    ghost var text := buffer[..out];
    buffer[out] := 0;
    assert buffer[..out] == text;
    assert forall i :: 0 <= i < out ==> buffer[..][i] == text[i];
    assert buffer[..][out] == 0;
    EndIs(buffer[..], out);
    assert buffer[..][..out] == text;
  }

  lemma SpecialStep(done: seq<byte>, s: seq<byte>, cur: nat)
    requires cur < |s| && 0 !in done && s[cur] != 0
    ensures done + SpecialByte(s[cur]) + SpecialEncoded(s[cur + 1..]) == done + SpecialEncoded(s[cur..])
    ensures 0 !in done + SpecialByte(s[cur]) && |SpecialByte(s[cur])| < 10
  {
    SpecialByteClean(s[cur]);
    hide SpecialByte;
    assert s[cur..][1..] == s[cur + 1..];
  }

  /** xmlEncodeSpecialChars */
  method EncodeSpecialChars(input: seq<byte>) returns (buffer: array<byte>)
    requires 0 in input
    ensures fresh(buffer) && 0 in buffer[..] && CString(buffer[..]) == SpecialEncoded(CString(input))
    ensures Doubled(buffer.Length) && (buffer.Length == 1000 || buffer.Length < 2 * (|CString(buffer[..])| + 10))
  {
    hide SpecialByte, StrEnd, SpecialEncoded;
    ghost var s := CString(input);
    ghost var done: seq<byte> := [];
    buffer := new byte[1000];
    var out, cur := 0, 0;
    assert done + SpecialEncoded(s[0..]) == SpecialEncoded(s);
    while input[cur] != 0
      invariant 0 <= cur <= |s| && 0 <= out < buffer.Length && buffer.Length >= 1000 && fresh(buffer)
      invariant Doubled(buffer.Length) && (buffer.Length == 1000 || buffer.Length < 2 * (out + 10))
      invariant buffer[..out] == done && 0 !in done && done + SpecialEncoded(s[cur..]) == SpecialEncoded(s)
      decreases |s| - cur
    {
      StopsAtZero(input, cur);
      SpecialStep(done, s, cur);
      buffer, out := Write(buffer, out, 10, SpecialByte(input[cur]));
      done := done + SpecialByte(input[cur]);
      cur := cur + 1;
    }
    StopsAtZero(input, cur);
    NothingLeft();
    assert done == SpecialEncoded(s);
    Finish(buffer, out);
  }

  lemma NothingLeft()
    ensures SpecialEncoded([]) == [] && Encoded([]) == []
  {
  }

  /** The branches of xmlEncodeEntitiesInternal for the character at the cursor: what to write, and how far to go */
  method Translate(input: seq<byte>, cur: nat) returns (piece: seq<byte>, step: nat)
    requires 0 in input && Complete(CString(input)) && cur < StrEnd(input)
    ensures Taken(CString(input)[cur..]) == step && Written(CString(input)[cur..]) == piece
  {
    var b := input[cur];
    step := 1;
    ghost var s := CString(input)[cur..];
    assert Complete(CString(input)) && b == CString(input)[cur] && s[0] == b;
    if b == LT {
      piece := Named(LT_NAME);
    } else if b == GT {
      piece := Named(GT_NAME);
    } else if b == AMP {
      piece := Named(AMP_NAME);
    } else if (0x20 <= b < 0x80) || b == 10 || b == 9 {
      piece := [b];
    } else if b >= 0x80 {
      var val, l := Scan(input, cur);
      if l == 1 || !IsChar(val) {
        piece := DecRef(b);
      } else {
        piece := HexRef(val);
        step := l;
      }
    } else if b == CR {
      piece := DecRef(b);
    } else {
      piece := [];
    }
  }

  /** The value of the bytes from the cursor on, and their number; 1 if no character starts there */
  method Scan(input: seq<byte>, cur: nat) returns (val: nat, l: nat)
    requires 0 in input && Complete(CString(input)) && cur < StrEnd(input) && input[cur] >= 0x80
    ensures l == Length(input[cur]) && (l > 1 ==> val == Value(CString(input)[cur..]))
  {
    ghost var s := CString(input)[cur..];
    assert CString(input)[cur] == input[cur];
    assert forall k :: 0 <= k < |s| ==> s[k] == input[cur + k];
    var b := input[cur];
    val, l := 0, 1;
    if b < 0xc0 {
    } else if b < 0xe0 {
      val := Low(b, 32);
      val := val * 64 + Low(input[cur + 1], 64);
      l := 2;
    } else if b < 0xf0 {
      val := Low(b, 16);
      val := val * 64 + Low(input[cur + 1], 64);
      val := val * 64 + Low(input[cur + 2], 64);
      l := 3;
    } else if b < 0xf8 {
      val := Low(b, 8);
      val := val * 64 + Low(input[cur + 1], 64);
      val := val * 64 + Low(input[cur + 2], 64);
      val := val * 64 + Low(input[cur + 3], 64);
      l := 4;
    }
  }

  lemma EntityStep(done: seq<byte>, s: seq<byte>, cur: nat)
    requires cur < |s| && Complete(s) && 0 !in s && 0 !in done
    ensures Complete(s[cur..])
    ensures var n := Taken(s[cur..]);
      cur + n <= |s| && Complete(s[cur + n..])
      && done + Written(s[cur..]) + Encoded(s[cur + n..]) == done + Encoded(s[cur..])
    ensures 0 !in done + Written(s[cur..]) && |Written(s[cur..])| < 100
  {
    CompleteTail(s, cur);
    var t := s[cur..];
    assert t[0] == s[cur] && s[cur] in s;
    WrittenFits(t);
    WrittenIsClean(t);
    hide Written;
    CompleteTail(t, Taken(t));
    assert t[Taken(t)..] == s[cur + Taken(t)..];
  }

  /** xmlEncodeEntitiesInternal without a document, for strings whose lead bytes have their followers */
  method EncodeEntitiesInternal(input: seq<byte>) returns (buffer: array<byte>)
    requires 0 in input && Complete(CString(input))
    ensures fresh(buffer) && 0 in buffer[..] && CString(buffer[..]) == Encoded(CString(input))
    ensures Doubled(buffer.Length) && (buffer.Length == 1000 || buffer.Length < 2 * (|CString(buffer[..])| + 100))
  {
    hide StrEnd, Encoded, Written, Taken, Complete;
    ghost var s := CString(input);
    ghost var done: seq<byte> := [];
    buffer := new byte[1000];
    var out, cur := 0, 0;
    assert s[0..] == s && done + Encoded(s) == Encoded(s);
    while input[cur] != 0
      invariant 0 <= cur <= |s| && 0 <= out < buffer.Length && buffer.Length >= 1000 && fresh(buffer)
      invariant Doubled(buffer.Length) && (buffer.Length == 1000 || buffer.Length < 2 * (out + 100))
      invariant Complete(s[cur..]) && buffer[..out] == done && 0 !in done && done + Encoded(s[cur..]) == Encoded(s)
      decreases |s| - cur
    {
      StopsAtZero(input, cur);
      EntityStep(done, s, cur);
      var piece, step := Translate(input, cur);
      buffer, out := Write(buffer, out, 100, piece);
      done := done + piece;
      cur := cur + step;
    }
    StopsAtZero(input, cur);
    NothingLeft();
    assert done == Encoded(s);
    Finish(buffer, out);
  }

  /** Encoding the UTF-8 form of XML characters and reading the references gives them back. */
  method EncodeText(cps: seq<int>) returns (buffer: array<byte>)
    requires CodePoints(cps) && AllChars(cps)
    ensures 0 in buffer[..] && Ascii(CString(buffer[..])) && NoMarkup(CString(buffer[..]))
    ensures Decoded(CString(buffer[..])) == Some(cps)
  {
    var text := Utf8(cps);
    Utf8Complete(cps);
    EndIs(text + [0], |text|);
    assert (text + [0])[..|text|] == text;
    buffer := EncodeEntitiesInternal(text + [0]);
    EncodingIsInvertibleExactlyWhen(cps);
    EncodedIsAscii(text);
  }
}
