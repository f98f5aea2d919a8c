/** Zero-terminated strings in memory, and the two searches for a substring in libc.c and string.c. */
module CStrings {
  import opened Basics

  /** The memory from a pointer on, as far as it may be read, holds a string if there is a zero in it. */
  function StrEnd(s: seq<byte>): (e: nat)
    requires 0 in s
    ensures e < |s| && s[e] == 0 && forall i :: 0 <= i < e ==> s[i] != 0
  {
    if s[0] == 0 then 0 else 1 + StrEnd(s[1..])
  }

  function CString(s: seq<byte>): seq<byte>
    requires 0 in s
  {
    s[..StrEnd(s)]
  }

  lemma EndIs(s: seq<byte>, e: nat)
    requires e < |s| && s[e] == 0 && forall i :: 0 <= i < e ==> s[i] != 0
    ensures StrEnd(s) == e && CString(s) == s[..e]
  {
  }

  /** strlen */
  method StrLen(s: seq<byte>) returns (l: nat)
    requires 0 in s
    ensures l == StrEnd(s)
  {
    l := 0;
    while s[l] != 0
      invariant 0 <= l <= StrEnd(s)
      decreases StrEnd(s) - l
    {
      l := l + 1;
    }
  }

  /** strchr, which also finds the terminator */
  method StrChr(s: seq<byte>, from: nat, c: byte) returns (p: Option<nat>)
    requires 0 in s && from <= StrEnd(s)
    ensures p.None? ==> c !in s[from..StrEnd(s) + 1]
    ensures p.Some? ==> from <= p.value <= StrEnd(s) && s[p.value] == c && c !in s[from..p.value]
  {
    var i := from;
    while true
      invariant from <= i <= StrEnd(s) && c !in s[from..i]
      decreases StrEnd(s) - i
    {
      if s[i] == c {
        return Some(i);
      }
      assert s[from..i + 1] == s[from..i] + [s[i]];
      if s[i] == 0 {
        return None;
      }
      i := i + 1;
    }
  }

  /** The sign strncmp gives: the difference of the first two bytes that differ among the first `n`, terminators included. */
  function Difference(x: seq<byte>, y: seq<byte>, n: nat): int
    decreases n
  {
    if n == 0 then 0
    else if x == [] && y == [] then 0
    else if x == [] then 0 - y[0]
    else if y == [] then x[0]
    else if x[0] != y[0] then x[0] - y[0]
    else Difference(x[1..], y[1..], n - 1)
  }

  function Take(x: seq<byte>, n: nat): seq<byte> {
    if n <= |x| then x[..n] else x
  }

  lemma {:induction false} DifferenceIsExact(x: seq<byte>, y: seq<byte>, n: nat)
    requires 0 !in x && 0 !in y
    ensures Difference(x, y, n) == 0 <==> Take(x, n) == Take(y, n)
    decreases n
  {
    if n > 0 && x != [] && y != [] {
      assert x[0] in x && y[0] in y;
      assert Take(x, n) == [x[0]] + Take(x[1..], n - 1);
      assert Take(y, n) == [y[0]] + Take(y[1..], n - 1);
      DifferenceIsExact(x[1..], y[1..], n - 1);
    } else if n > 0 {
      assert x != [] ==> x[0] in x && x[0] in Take(x, n);
      assert y != [] ==> y[0] in y && y[0] in Take(y, n);
    }
  }

  /** The byte at `k`, the terminator included */
  function ByteAt(x: seq<byte>, k: nat): byte {
    if k < |x| then x[k] else 0
  }

  /** Otherwise it is the difference of the bytes at the first place where the strings differ. */
  lemma {:induction false} DifferenceAt(x: seq<byte>, y: seq<byte>, n: nat, k: nat)
    requires k < n && k <= |x| && k <= |y| && x[..k] == y[..k] && ByteAt(x, k) != ByteAt(y, k)
    ensures Difference(x, y, n) == ByteAt(x, k) as int - ByteAt(y, k) as int
    decreases k
  {
    if k > 0 {
      assert x[0] == x[..k][0] && y[0] == y[..k][0];
      assert x[1..][..k - 1] == x[..k][1..] && y[1..][..k - 1] == y[..k][1..];
      DifferenceAt(x[1..], y[1..], n - 1, k - 1);
    }
  }

  /** strncmp of the string at `s1[i..]` with `s2` */
  method StrNCmp(s1: seq<byte>, i: nat, s2: seq<byte>, n: nat) returns (r: int)
    requires 0 in s1 && i <= StrEnd(s1) && 0 in s2
    ensures r == Difference(CString(s1)[i..], CString(s2), n)
  {
    var p, q, m := i, 0, n;
    while m != 0 && s1[p] == s2[q]
      invariant i <= p <= StrEnd(s1) && 0 <= q <= StrEnd(s2) && 0 <= m <= n
      invariant Difference(CString(s1)[i..], CString(s2), n) == Difference(CString(s1)[p..], CString(s2)[q..], m)
      decreases m
    {
      StopsAtZero(s1, p);
      StopsAtZero(s2, q);
      if s1[p] == 0 {
        return 0;
      }
      p, q, m := p + 1, q + 1, m - 1;
    }
    StopsAtZero(s1, p);
    StopsAtZero(s2, q);
    r := 0;
    if m != 0 {
      r := s1[p] as int - s2[q] as int;
    }
  }

  lemma StopsAtZero(s: seq<byte>, i: nat)
    requires 0 in s && i <= StrEnd(s)
    ensures s[i] == 0 <==> i == StrEnd(s)
    ensures if s[i] == 0 then CString(s)[i..] == []
            else CString(s)[i..] == [s[i]] + CString(s)[i + 1..]
  {
  }

  // ---- the substring search (section 7.21.5.7 of ISO C99) ----

  predicate OccursAt(text: seq<byte>, word: seq<byte>, i: nat) {
    i + |word| <= |text| && text[i..i + |word|] == word
  }

  /** The first occurrence of `word` in `text` at `from` or after it */
  function FirstFrom(text: seq<byte>, word: seq<byte>, from: nat): (r: Option<nat>)
    ensures r.Some? ==> from <= r.value && OccursAt(text, word, r.value)
    ensures r.Some? ==> forall i :: from <= i < r.value ==> !OccursAt(text, word, i)
    ensures r.None? ==> forall i :: from <= i ==> !OccursAt(text, word, i)
    decreases |text| - from
  {
    if OccursAt(text, word, from) then Some(from)
    else if from >= |text| then None
    else FirstFrom(text, word, from + 1)
  }

  lemma {:induction false} FirstSkips(text: seq<byte>, word: seq<byte>, from: nat, to: nat)
    requires from <= to <= |text|
    requires forall i :: from <= i < to ==> !OccursAt(text, word, i)
    ensures FirstFrom(text, word, from) == FirstFrom(text, word, to)
    decreases |text| - from
  {
    if from < to {
      FirstSkips(text, word, from + 1, to);
    }
  }

  lemma OccursByComparison(text: seq<byte>, word: seq<byte>, p: nat)
    requires p <= |text| && 0 !in text && 0 !in word
    ensures Difference(text[p..], word, |word|) == 0 <==> OccursAt(text, word, p)
  {
    forall b | b in text[p..] ensures b in text {
    }
    DifferenceIsExact(text[p..], word, |word|);
    if p + |word| <= |text| {
      assert text[p..][..|word|] == text[p..p + |word|];
    }
  }

  /** strstr of libc.c */
  method LibcStrStr(s1: seq<byte>, s2: seq<byte>) returns (r: Option<nat>)
    requires 0 in s1 && 0 in s2
    ensures r == LibcFound(CString(s1), CString(s2))
  {
    ghost var text, word := CString(s1), CString(s2);
    var len := StrLen(s2);
    var p := StrChr(s1, 0, s2[0]);
    Skipped(s1, s2, 0, p);
    while p.Some?
      invariant p.Some? ==> p.value <= StrEnd(s1) && s1[p.value] == s2[0]
      invariant word != [] ==> (p.Some? ==> FirstFrom(text, word, 0) == FirstFrom(text, word, p.value))
      invariant p.None? ==> word != [] && FirstFrom(text, word, 0) == None
      invariant word == [] ==> p == Some(StrEnd(s1))
      decreases if p.Some? then |s1| - p.value else 0
    {
      var c := StrNCmp(s1, p.value, s2, len);
      OccursByComparison(text, word, p.value);
      if c == 0 {
        return p;
      }
      StopsAtZero(s1, p.value);
      StopsAtZero(s2, 0);
      ghost var from := p.value + 1;
      p := StrChr(s1, p.value + 1, s2[0]);
      Skipped(s1, s2, from, p);
    }
    return None;
  }

  lemma Skipped(s1: seq<byte>, s2: seq<byte>, from: nat, p: Option<nat>)
    requires 0 in s1 && 0 in s2 && from <= StrEnd(s1)
    requires p.None? ==> s2[0] !in s1[from..StrEnd(s1) + 1]
    requires p.Some? ==> from <= p.value <= StrEnd(s1) && s1[p.value] == s2[0] && s2[0] !in s1[from..p.value]
    ensures CString(s2) == [] ==> p == Some(StrEnd(s1))
    ensures CString(s2) != [] ==>
      FirstFrom(CString(s1), CString(s2), from) == if p.None? then None else FirstFrom(CString(s1), CString(s2), p.value)
  {
    var text, word, to := CString(s1), CString(s2), if p.Some? then p.value else StrEnd(s1);
    if word == [] {
      assert s1[from..StrEnd(s1) + 1][StrEnd(s1) - from] == 0;
      StopsAtZero(s2, 0);
      StopsAtZero(s1, to);
    } else {
      forall i | from <= i < to ensures !OccursAt(text, word, i) {
        assert s1[from..to][i - from] == s1[i];
        assert i + |word| <= |text| ==> text[i..i + |word|][0] == s1[i];
        assert p.None? ==> s1[from..StrEnd(s1) + 1][i - from] == s1[i];
      }
      FirstSkips(text, word, from, to);
    }
  }

  /** strstr of string.c, with one cursor in each string */
  method StringStrStr(text: seq<byte>, word: seq<byte>) returns (r: Option<nat>)
    requires 0 in text && 0 in word
    ensures r == FirstFrom(CString(text), CString(word), 0)
  {
    StopsAtZero(word, 0);
    if word[0] == 0 {
      return Some(0);
    }
    var p := 0;
    while text[p] != 0
      invariant 0 <= p <= StrEnd(text)
      invariant FirstFrom(CString(text), CString(word), 0) == FirstFrom(CString(text), CString(word), p)
      decreases StrEnd(text) - p
    {
      StopsAtZero(text, p);
      if text[p] == word[0] {
        var found := MatchesAt(text, word, p);
        if found {
          return Some(p);
        }
      } else {
        Mismatch(CString(text), CString(word), p, 0);
      }
      p := p + 1;
    }
    StopsAtZero(text, p);
    return None;
  }

  /** The inner loop: both cursors move until the word ends or a byte differs. */
  method MatchesAt(text: seq<byte>, word: seq<byte>, p: nat) returns (found: bool)
    requires 0 in text && 0 in word && p <= StrEnd(text)
    ensures found == OccursAt(CString(text), CString(word), p)
  {
    hide StrEnd;
    var a, b := p, 0;
    while true
      invariant 0 <= b <= StrEnd(word) && a == p + b <= StrEnd(text)
      invariant CString(text)[p..a] == CString(word)[..b]
      decreases StrEnd(word) - b
    {
      StopsAtZero(word, b);
      if word[b] == 0 {
        return true;
      }
      StopsAtZero(text, a);
      if text[a] != word[b] {
        Mismatch(CString(text), CString(word), p, b);
        return false;
      }
      assert CString(text)[p..a + 1] == CString(text)[p..a] + [text[a]];
      assert CString(word)[..b + 1] == CString(word)[..b] + [word[b]];
      a, b := a + 1, b + 1;
    }
  }

  lemma Mismatch(text: seq<byte>, word: seq<byte>, p: nat, b: nat)
    requires b < |word| && (p + b < |text| ==> text[p + b] != word[b])
    ensures !OccursAt(text, word, p)
  {
    assert p + |word| <= |text| ==> text[p..p + |word|][b] == text[p + b];
  }

  /** What libc.c's strstr finds: the terminator, if the word is empty. */
  function LibcFound(text: seq<byte>, word: seq<byte>): Option<nat> {
    if word == [] then Some(|text|) else FirstFrom(text, word, 0)
  }

  /** The two searches agree exactly on the non-empty words and on the empty text. */
  lemma AgreeExactlyWhen(text: seq<byte>, word: seq<byte>)
    ensures LibcFound(text, word) == FirstFrom(text, word, 0) <==> word != [] || text == []
  {
    assert word == [] ==> OccursAt(text, word, 0);
  }
}
