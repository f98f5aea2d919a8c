/** The growable buffer of buf.c as a byte sequence. */
module Buffer {
  import opened Basics
  import opened CStrings
  import opened BufGrowth

  const NO_MEMORY := 2 // XML_ERR_NO_MEMORY

  /** realloc: a new block with as much of the old one as fits, at least `keep` bytes; the rest of it holds anything. */
  method Realloc(former: array?<byte>, n: nat, ghost keep: nat) returns (b: array<byte>)
    requires keep <= n && (former != null ==> keep <= former.Length)
    ensures fresh(b) && b.Length == n
    ensures former != null ==> b[..keep] == former[..keep]
  {
    b := new byte[n];
    if former != null {
      forall k | 0 <= k < n && k < former.Length {
        b[k] := former[k];
      }
    }
  }

  /** A new block with a copy of the used bytes and a zero behind them */
  method CopyUsed(former: array<byte>, use: nat, n: nat) returns (b: array<byte>)
    requires use < n && use <= former.Length
    ensures fresh(b) && b.Length == n && b[..use] == former[..use] && b[use] == 0
  {
    b := new byte[n];
    forall k | 0 <= k < use {
      b[k] := former[k];
    }
    b[use] := 0;
  }

  /** memmove inside a block */
  method Move(b: array<byte>, to: nat, from: nat, n: nat)
    requires to + n <= b.Length && from + n <= b.Length
    modifies b
    ensures b[to..to + n] == old(b[from..from + n])
    ensures forall k :: 0 <= k < b.Length && !(to <= k < to + n) ==> b[k] == old(b[k])
  {
    forall k | to <= k < to + n {
      b[k] := b[from + (k - to)];
    }
  }

  /** memmove from elsewhere */
  method Put(b: array<byte>, to: nat, s: seq<byte>)
    requires to + |s| <= b.Length
    modifies b
    ensures b[to..to + |s|] == s
    ensures forall k :: 0 <= k < b.Length && !(to <= k < to + |s|) ==> b[k] == old(b[k])
  {
    forall k | to <= k < to + |s| {
      b[k] := s[k - to];
    }
  }

  lemma Slices(t: seq<byte>, i: nat, j: nat, k: nat)
    requires i <= j <= k <= |t|
    ensures t[i..k] == t[i..j] + t[j..k]
  {
  }

  lemma Front(b: array<byte>, start: nat, i: nat, j: nat)
    requires i <= j && start + j <= b.Length
    ensures b[start..start + i] == b[start..start + j][..i]
  {
  }

  /** The bytes `s` and a zero written behind the `use` bytes at `start` */
  method PutBehind(b: array<byte>, start: nat, use: nat, s: seq<byte>)
    requires start + use + |s| < b.Length
    modifies b
    ensures b[start..start + use + |s|] == old(b[start..start + use]) + s
    ensures b[start + use + |s|] == 0
  {
    ghost var was := b[..];
    Put(b, start + use, s);
    b[start + use + |s|] := 0;
    var to := start + use + |s|;
    Slices(b[..], start, start + use, to);
    assert b[start..start + use] == was[start..start + use];
  }

  /** The bytes `s` written in front of the `use` bytes at `start`, which make room for them; then a zero */
  method PutBefore(b: array<byte>, start: nat, use: nat, s: seq<byte>)
    requires start + use + |s| < b.Length
    modifies b
    ensures b[start..start + use + |s|] == s + old(b[start..start + use])
    ensures b[start + use + |s|] == 0
  {
    ghost var was := b[..];
    var n := |s|;
    Move(b, start + n, start, use);
    ghost var moved := b[..];
    assert moved[start + n..start + n + use] == was[start..start + use];
    Put(b, start, s);
    b[start + use + n] := 0;
    assert b[start + n..start + n + use] == moved[start + n..start + n + use];
    Slices(b[..], start, start + n, start + n + use);
    assert b[..][start..start + n] == s;
  }

  /** The bytes `s` written just before `start`, into space that is free there */
  method PutInGap(b: array<byte>, start: nat, use: nat, s: seq<byte>)
    requires |s| <= start && start + use < b.Length
    modifies b
    ensures b[start - |s|..start + use] == s + old(b[start..start + use])
    ensures b[start + use] == old(b[start + use])
  {
    ghost var was := b[..];
    Put(b, start - |s|, s);
    assert b[start..start + use] == was[start..start + use];
    var from := start - |s|;
    assert b[from..start] == s;
    Slices(b[..], from, start, start + use);
  }

  /** xmlBufResize succeeds. */
  predicate Resizes(alloc: Scheme, use: nat, size: nat, req: nat) {
    alloc != Immutable && !(alloc == Bounded && req >= XML_MAX_TEXT_LENGTH)
    && (req < size || (LoopEnds(alloc, use, size, req) && NewSize(alloc, use, size, req).Some?))
  }

  function Resized(alloc: Scheme, use: nat, size: nat, req: nat): nat
    requires Resizes(alloc, use, size, req)
  {
    if req < size then size else NewSize(alloc, use, size, req).value
  }

  /** The request is one the 32-bit arithmetic serves, see BufGrowth.NewSizeSuffices. */
  predicate Serves(size: nat, req: nat) {
    req + 10 <= UINT_MAX && (req < size || size <= INT_MAX)
  }

  /** `str` with length `len` may be read; the length -1 asks for strlen. */
  predicate Readable(str: Option<seq<byte>>, len: int) {
    str.Some? ==> if len == -1 then 0 in str.value && StrEnd(str.value) <= INT_MAX else len <= |str.value|
  }

  function Piece(str: Option<seq<byte>>, len: int): seq<byte>
    requires Readable(str, len)
  {
    if str.None? || len < -1 then [] else if len == -1 then CString(str.value) else str.value[..len]
  }

  /** `n` more bytes are within what the 32-bit arithmetic serves. */
  predicate Addable(use: nat, size: nat, n: nat) {
    use + n + 12 <= UINT_MAX && (size <= INT_MAX || use + n + 2 <= size)
  }

  /** The answer of xmlBufAdd and xmlBufAddHead when they have to find room for `n` bytes */
  function RoomCode(alloc: Scheme, use: nat, size: nat, n: nat): int {
    if use + n + 2 <= size then 0
    else if alloc == Bounded && use + n + 2 >= XML_MAX_TEXT_LENGTH then -1
    else if Resizes(alloc, use, size, use + n + 2) then 0
    else NO_MEMORY
  }

  /** xmlBufCCat from the point where `pending` has been written behind `base` bytes and `rest` has not. Growing the
      buffer puts `use` back to `base`, because the compatibility field still holds it. */
  datatype CatResult = CatResult(ok: bool, kept: seq<byte>)

  function Catted(alloc: Scheme, base: nat, pending: seq<byte>, size: nat, rest: seq<byte>): CatResult
    decreases |rest|
  {
    if rest == [] then CatResult(true, pending)
    else if base + |pending| + 10 < size then Catted(alloc, base, pending + [rest[0]], size, rest[1..])
    else if Resizes(alloc, base, size, base + |pending| + 10) then
      Catted(alloc, base, [rest[0]], Resized(alloc, base, size, base + |pending| + 10), rest[1..])
    else CatResult(false, [])
  }

  lemma CattedStep(alloc: Scheme, base: nat, pending: seq<byte>, size: nat, rest: seq<byte>)
    requires rest != []
    ensures var c, req := [rest[0]], base + |pending| + 10;
      Catted(alloc, base, pending, size, rest) ==
        if req < size then Catted(alloc, base, pending + c, size, rest[1..])
        else if Resizes(alloc, base, size, req) then Catted(alloc, base, [] + c, Resized(alloc, base, size, req), rest[1..])
        else CatResult(false, [])
  {
    assert [] + [rest[0]] == [rest[0]];
    hide Resizes, Resized;
  }

  lemma {:induction false} CattedKeepsAll(alloc: Scheme, base: nat, pending: seq<byte>, size: nat, rest: seq<byte>)
    requires rest == [] || base + |pending| + |rest| + 9 < size
    ensures Catted(alloc, base, pending, size, rest) == CatResult(true, pending + rest)
    decreases |rest|
  {
    if rest != [] {
      CattedKeepsAll(alloc, base, pending + [rest[0]], size, rest[1..]);
      assert pending + [rest[0]] + rest[1..] == pending + rest;
    } else {
      assert pending + rest == pending;
    }
  }

  /** What is kept is the end of the string, and not all of it if the buffer grows after the first byte. */
  lemma {:induction false} CattedKeepsTheEnd(alloc: Scheme, base: nat, pending: seq<byte>, size: nat, rest: seq<byte>)
    returns (lost: nat)
    ensures lost <= |pending| + |rest|
    ensures var r := Catted(alloc, base, pending, size, rest); r.ok ==> r.kept == (pending + rest)[lost..]
    ensures pending != [] && rest != [] && base + |pending| + |rest| + 9 >= size ==>
      lost > 0 || !Catted(alloc, base, pending, size, rest).ok
    decreases |rest|
  {
    hide Resizes, Resized;
    if rest == [] {
      lost := 0;
      assert pending + rest == pending;
    } else if base + |pending| + 10 < size {
      lost := CattedKeepsTheEnd(alloc, base, pending + [rest[0]], size, rest[1..]);
      assert pending + [rest[0]] + rest[1..] == pending + rest;
    } else if Resizes(alloc, base, size, base + |pending| + 10) {
      var more := CattedKeepsTheEnd(alloc, base, [rest[0]], Resized(alloc, base, size, base + |pending| + 10), rest[1..]);
      lost := |pending| + more;
      assert [rest[0]] + rest[1..] == rest;
      assert rest[more..] == (pending + rest)[lost..];
    } else {
      lost := 0;
    }
  }

  /** The room the first byte finds, growing the buffer if ten bytes are not free */
  function FirstRoom(alloc: Scheme, use: nat, size: nat): Option<nat> {
    if use + 10 < size then Some(size)
    else if Resizes(alloc, use, size, use + 10) then Some(Resized(alloc, use, size, use + 10))
    else None
  }

  /** A string is appended whole exactly when no growth is needed after its first byte. */
  lemma CCatAppendsExactlyWhen(alloc: Scheme, use: nat, size: nat, s: seq<byte>)
    ensures Catted(alloc, use, [], size, s) == CatResult(true, s) <==>
      s == [] || (FirstRoom(alloc, use, size).Some?
                  && (|s| == 1 || use + |s| + 9 < FirstRoom(alloc, use, size).value))
  {
    if s != [] && FirstRoom(alloc, use, size).Some? {
      var room := FirstRoom(alloc, use, size).value;
      assert [] + [s[0]] == [s[0]];
      assert Catted(alloc, use, [], size, s) == Catted(alloc, use, [s[0]], room, s[1..]);
      assert [s[0]] + s[1..] == s;
      if |s| == 1 || use + |s| + 9 < room {
        CattedKeepsAll(alloc, use, [s[0]], room, s[1..]);
      } else {
        var lost := CattedKeepsTheEnd(alloc, use, [s[0]], room, s[1..]);
      }
    }
  }

  lemma {:induction false} CattedFills(alloc: Scheme, base: nat, pending: seq<byte>, size: nat, rest: seq<byte>, n: nat)
    requires n <= |rest| && (n == 0 || base + |pending| + n + 9 < size)
    ensures Catted(alloc, base, pending, size, rest) == Catted(alloc, base, pending + rest[..n], size, rest[n..])
    decreases n
  {
    if n == 0 {
      assert pending + rest[..0] == pending && rest[0..] == rest;
    } else {
      CattedFills(alloc, base, pending + [rest[0]], size, rest[1..], n - 1);
      assert pending + [rest[0]] + rest[1..][..n - 1] == pending + rest[..n] && rest[1..][n - 1..] == rest[n..];
    }
  }

  /** For example: ten bytes in a doubling buffer of thirty, and twenty-five more; the first ten of those are lost. */
  lemma CCatLosesBytes(s: seq<byte>)
    requires |s| == 25
    ensures Catted(DoubleIt, 10, [], 30, s) == CatResult(true, s[10..])
  {
    CattedFills(DoubleIt, 10, [], 30, s, 10);
    assert [] + s[..10] == s[..10];
    assert Resized(DoubleIt, 10, 30, 30) == 60;
    var rest := s[10..];
    CattedStep(DoubleIt, 10, s[..10], 30, rest);
    assert [] + [rest[0]] == [rest[0]] && [rest[0]] + rest[1..] == rest;
    CattedKeepsAll(DoubleIt, 10, [rest[0]], 60, rest[1..]);
  }

  /** The size after xmlBufGrowInternal */
  function Grown(alloc: Scheme, use: nat, size: nat, len: nat): Option<nat> {
    if use + len < size then Some(size) else GrownSize(alloc, use, size, len)
  }

  /** Conversion to int */
  function Int(n: nat): int {
    if Uint(n) <= INT_MAX then Uint(n) else Uint(n) - UINT_MAX - 1
  }

  class Buf {
    var block: array?<byte>  // the allocated memory: contentIO, or content
    var start: nat           // content - block
    var io: bool             // contentIO != NULL
    var alloc: Scheme
    var use: nat
    var size: nat
    var compatUse: nat
    var compatSize: nat
    var error: int

    ghost predicate Shape()
      reads this`block, this`start, this`io, this`alloc, this`use, this`size
    {
      use <= size
      && (block == null ==> start == 0 && size == 0 && !io)
      && (block != null ==> start + use <= block.Length)
      && (block != null && alloc != Immutable ==> start + size <= block.Length && use < size)
      && (io ==> alloc == IO)
      && (!io && alloc != Immutable ==> start == 0)
    }

    ghost predicate Valid()
      reads this
    {
      Shape() && Checked(size, compatSize) == size && compatUse == Updated(use)
    }

    ghost function Contents(): seq<byte>
      requires Shape()
      reads this`block, this`start, this`io, this`alloc, this`use, this`size, block
    {
      if block == null then [] else block[start..start + use]
    }

    /** The byte after the contents is zero. */
    ghost predicate Terminated()
      requires Shape()
      reads this`block, this`start, this`io, this`alloc, this`use, this`size, block
    {
      block != null && start + use < block.Length && block[start + use] == 0
    }

    /** xmlBufCreateSize; the sum with 2 is taken in 64 bits, and the copy of the size in 32. */
    constructor CreateSize(size: nat, alloc: Scheme)
      requires size < 0x1_0000_0000_0000_0000 && alloc != IO
      ensures Shape() && Contents() == [] && error == 0 && this.alloc == alloc
      ensures this.size == if size == 0 then 0 else (size + 2) % 0x1_0000_0000_0000_0000
      ensures block != null ==> Terminated() && fresh(block)
      ensures block == null <==> this.size == 0
      ensures Valid() <==> this.size <= UINT_MAX || Uint(this.size) >= INT_MAX
    {
      var total := if size == 0 then 0 else (size + 2) % 0x1_0000_0000_0000_0000;
      this.size, compatSize := total, Uint(total);
      this.alloc, use, compatUse, error, io, start := alloc, 0, 0, 0, false, 0;
      block := null;
      new;
      if total > 0 {
        var b := new byte[total];
        b[0] := 0;
        block := b;
      }
    }

    /** xmlBufCreateStatic, for a memory area that is not empty */
    constructor CreateStatic(mem: array<byte>)
      requires mem.Length > 0
      ensures Valid() && Contents() == mem[..] && error == 0 && alloc == Immutable && block == mem
    {
      block, start, io, alloc, error := mem, 0, false, Immutable, 0;
      use, size, compatUse, compatSize := mem.Length, mem.Length, Updated(mem.Length), Updated(mem.Length);
    }

    /** CHECK_COMPAT */
    method CheckCompat()
      modifies this`use, this`size
      ensures size == Checked(old(size), compatSize) && use == Checked(old(use), compatUse)
      ensures old(Valid()) ==> unchanged(this)
    {
      if size != compatSize {
        if compatSize < INT_MAX {
          size := compatSize;
        }
      }
      if use != compatUse {
        if compatUse < INT_MAX {
          use := compatUse;
        }
      }
    }

    /** UPDATE_COMPAT */
    method UpdateCompat()
      modifies this`compatUse, this`compatSize
      ensures compatUse == Updated(use) && compatSize == Updated(size)
      ensures Checked(size, compatSize) == size
    {
      compatSize := if size < INT_MAX then size else INT_MAX;
      compatUse := if use < INT_MAX then use else INT_MAX;
    }

    /** xmlBufMemoryError */
    method MemoryError()
      modifies this`error
      ensures error == if old(error) == 0 then NO_MEMORY else old(error)
    {
      if error == 0 {
        error := NO_MEMORY;
      }
    }

    /** xmlBufSetAllocationScheme: switching to IO takes effect, but the answer is -1 all the same. */
    method SetAllocationScheme(scheme: Scheme) returns (r: int)
      requires Valid()
      modifies this
      ensures Valid() && Contents() == old(Contents()) && (old(Terminated()) ==> Terminated())
      ensures block == old(block) && start == old(start) && error == old(error) && size == old(size) && use == old(use)
      ensures alloc == if old(error) != 0 || old(alloc) == Immutable || old(alloc) == IO then old(alloc) else scheme
      ensures r == 0 <==> old(error) == 0 && old(alloc) != Immutable && old(alloc) != IO && scheme != IO
      ensures io == (old(io) || (old(error) == 0 && old(alloc) != Immutable && old(alloc) != IO && scheme == IO && block != null))
    {
      if error != 0 {
        return -1;
      }
      if alloc == Immutable || alloc == IO {
        return -1;
      }
      if scheme != IO {
        alloc := scheme;
        return 0;
      }
      alloc := IO;
      io := block != null;
      return -1;
    }

    /** xmlBufEmpty */
    method Empty()
      requires Valid()
      modifies this, block
      ensures Valid() && error == old(error) && alloc == old(alloc) && io == old(io)
      ensures error == 0 ==> Contents() == [] && (block != null ==> Terminated())
      ensures error != 0 ==> Contents() == old(Contents())
      ensures block == old(block) || fresh(block)
      ensures error == 0 && io ==> start == 0 && size == old(start) + old(size)
      ensures error != 0 || !io ==> size == old(size) && (error != 0 || alloc != Immutable ==> start == old(start))
      ensures error != 0 || alloc != Immutable ==> block == old(block)
    {
      if error != 0 {
        return;
      }
      if block == null {
        return;
      }
      CheckCompat();
      use := 0;
      if alloc == Immutable {
        block, start := new byte[1](_ => 0), 0;
      } else if alloc == IO && io {
        size, start := size + start, 0;
        block[0] := 0;
      } else {
        block[0] := 0;
      }
      UpdateCompat();
    }

    /** xmlBufShrink */
    method Shrink(len: nat) returns (n: nat)
      requires Valid()
      modifies this, block
      ensures Valid() && error == old(error) && alloc == old(alloc) && io == old(io) && block == old(block)
      ensures n == if error != 0 || len > old(use) then 0 else len
      ensures Contents() == old(Contents())[n..]
      ensures old(Terminated()) ==> Terminated()
      ensures n == 0 || (!io && alloc != Immutable) ==> start == old(start) && size == old(size)
      ensures n > 0 && alloc == Immutable ==> start == old(start) + n && size == old(size) - n
      ensures n > 0 && io && old(start) + n < old(size) - n ==> start == old(start) + n && size == old(size) - n
      ensures n > 0 && io && old(start) + n >= old(size) - n ==> start == 0 && size == old(start) + old(size)
    {
      if error != 0 {
        return 0;
      }
      assert use > 0 ==> block != null;
      hide Buf.Shape, Buf.Contents, Buf.Terminated;
      CheckCompat();
      if len == 0 || len > use {
        return 0;
      }
      DropFront(len);
      UpdateCompat();
      return len;
    }

    /** The content moves, or the bytes do; what an IO buffer gave up in front is taken back once it is half of the block. */
    method DropFront(len: nat)
      requires Shape() && len <= use && block != null
      modifies this`use, this`size, this`start, block
      ensures Shape() && use == old(use) - len
      ensures !io && alloc != Immutable ==> start == old(start) && size == old(size)
      ensures alloc == Immutable ==> start == old(start) + len && size == old(size) - len
      ensures io && old(start) + len < old(size) - len ==> start == old(start) + len && size == old(size) - len
      ensures io && old(start) + len >= old(size) - len ==> start == 0 && size == old(start) + old(size)
      ensures Contents() == old(Contents())[len..]
      ensures old(Terminated()) ==> Terminated()
    {
      if alloc == Immutable {
        Advance(len);
      } else if alloc == IO && io {
        Advance(len);
        if start >= size {
          TakeBack();
        }
      } else {
        SlideDown(len);
      }
    }

    method Advance(len: nat)
      requires Shape() && len <= use && block != null && (alloc == Immutable || io)
      modifies this`use, this`size, this`start
      ensures Shape() && use == old(use) - len && start == old(start) + len && size == old(size) - len
      ensures Contents() == old(Contents())[len..] && (old(Terminated()) ==> Terminated())
    {
      use, start, size := use - len, start + len, size - len;
    }

    method TakeBack()
      requires Shape() && block != null && io
      modifies this`size, this`start, block
      ensures Shape() && start == 0 && size == old(start) + old(size)
      ensures Contents() == old(Contents()) && (old(Terminated()) ==> Terminated())
    {
      size := size + start;
      MoveToFront(start);
    }

    method SlideDown(len: nat)
      requires Shape() && len <= use && block != null && alloc != Immutable && !io
      modifies this`use, this`start, block
      ensures Shape() && use == old(use) - len && start == 0
      ensures Contents() == old(Contents())[len..] && Terminated()
    {
      assert block[..use][len..] == block[len..use];
      use := use - len;
      MoveToFront(len);
    }

    /** The `use` bytes at `from` moved to the front of the block, and a zero behind them */
    method MoveToFront(from: nat)
      requires block != null && from + use < block.Length
      modifies this`start, block
      ensures start == 0 && block[..use] == old(block[from..from + use]) && block[use] == 0
    {
      Move(block, 0, from, use);
      start := 0;
      block[use] := 0;
    }

    /** xmlBufErase on an allocated buffer */
    method Erase(len: nat) returns (r: int)
      requires Valid() && (error == 0 ==> block != null && alloc != Immutable)
      modifies this, block
      ensures Valid() && error == old(error) && alloc == old(alloc) && io == old(io) && block == old(block)
      ensures size == old(size) && start == old(start)
      ensures r == if error == 0 && len <= old(use) then 0 else -1
      ensures r == 0 ==> Contents() == old(Contents())[..old(use) - len] && Terminated()
      ensures r != 0 ==> Contents() == old(Contents()) && (old(Terminated()) ==> Terminated())
    {
      if error != 0 {
        return -1;
      }
      CheckCompat();
      if len > use {
        return -1;
      }
      use := use - len;
      block[start + use] := 0;
      UpdateCompat();
      return 0;
    }

    /** xmlBufResize. The use it starts from is the one CHECK_COMPAT leaves. */
    method Resize(req: nat) returns (ok: bool)
      requires Shape() && Checked(size, compatSize) == size
      requires Checked(use, compatUse) <= use && compatUse == Updated(Checked(use, compatUse))
      requires error == 0 ==> Serves(size, req) && (block == null ==> req > 0)
      modifies this, block
      ensures if old(error) == 0 then Valid() && use == Checked(old(use), old(compatUse)) else use == old(use)
      ensures Shape() && alloc == old(alloc) && io == old(io) && (block == old(block) || fresh(block))
      ensures ok <==> old(error) == 0 && Resizes(alloc, use, old(size), req)
      ensures ok ==> error == 0 && size == Resized(alloc, use, old(size), req) && req <= size && block != null
      ensures ok ==> start == if req >= old(size) && io && old(start) > size then 0 else old(start)
      ensures !ok ==> error == (if old(error) == 0 && alloc != Immutable then NO_MEMORY else old(error))
      ensures !ok ==> block == old(block) && size == old(size) && start == old(start)
      ensures use <= old(use) && Contents() == old(Contents())[..use]
      ensures old(Terminated()) && use == old(use) ==> Terminated()
    {
      hide Resizes, Resized;
      if error != 0 {
        return false;
      }
      ghost var s := Contents();
      CheckCompat();
      if block != null {
        Front(block, start, use, old(use));
      }
      assert Contents() == s[..use];
      ok := ResizeTo(req);
    }

    /** The rest of xmlBufResize */
    method ResizeTo(req: nat) returns (ok: bool)
      requires Valid() && error == 0 && Serves(size, req) && (block == null ==> req > 0)
      modifies this, block
      ensures Valid() && (block == old(block) || fresh(block))
      ensures use == old(use) && alloc == old(alloc) && io == old(io)
      ensures ok <==> Resizes(alloc, use, old(size), req)
      ensures ok ==> error == 0 && size == Resized(alloc, use, old(size), req) && req <= size && block != null
      ensures ok ==> start == if req >= old(size) && io && old(start) > size then 0 else old(start)
      ensures !ok ==> error == (if alloc != Immutable then NO_MEMORY else 0)
      ensures !ok ==> block == old(block) && size == old(size) && start == old(start)
      ensures Contents() == old(Contents())
      ensures old(Terminated()) ==> Terminated()
    {
      assert block == null ==> size == 0;
      hide LoopEnds, NewSize, Buf.Shape, Buf.Contents, Buf.Terminated;
      if alloc == Immutable {
        return false;
      }
      if alloc == Bounded {
        if req >= XML_MAX_TEXT_LENGTH {
          MemoryError();
          return false;
        }
      }
      if req < size {
        return true;
      }
      ok := EnlargeAndNote(req);
    }

    /** With the copies brought up to date, or the error noted */
    method EnlargeAndNote(req: nat) returns (ok: bool)
      requires Valid() && error == 0 && alloc != Immutable && size <= req && Serves(size, req) && req > 0
      modifies this`block, this`start, this`size, this`compatSize, this`compatUse, this`error, block
      ensures Valid() && (block == old(block) || fresh(block))
      ensures LoopEnds(alloc, use, old(size), req) && (ok <==> NewSize(alloc, use, old(size), req).Some?)
      ensures ok ==> error == 0 && size == NewSize(alloc, use, old(size), req).value && req <= size && block != null
      ensures ok ==> start == if io && old(start) > size then 0 else old(start)
      ensures !ok ==> error == NO_MEMORY && block == old(block) && size == old(size) && start == old(start)
      ensures Contents() == old(Contents())
      ensures old(Terminated()) ==> Terminated()
    {
      hide LoopEnds, NewSize, Buf.Shape, Buf.Contents, Buf.Terminated;
      ok := Enlarge(req);
      if ok {
        UpdateCompat();
      } else {
        MemoryError();
      }
    }

    method Enlarge(req: nat) returns (ok: bool)
      requires Shape() && alloc != Immutable && size <= req && Serves(size, req) && req > 0
      modifies this`block, this`start, this`size, block
      ensures Shape() && (block == old(block) || fresh(block))
      ensures LoopEnds(alloc, use, old(size), req) && (ok <==> NewSize(alloc, use, old(size), req).Some?)
      ensures ok ==> size == NewSize(alloc, use, old(size), req).value && req <= size && block != null
      ensures ok ==> start == if io && old(start) > size then 0 else old(start)
      ensures !ok ==> block == old(block) && size == old(size) && start == old(start)
      ensures Contents() == old(Contents())
      ensures old(Terminated()) ==> Terminated()
    {
      var newSize;
      NewSizeSuffices(alloc, use, size, req);
      hide LoopEnds, NewSize;
      ok, newSize := FigureSize(req);
      assert ok ==> use < newSize;
      hide Buf.Shape, Buf.Contents, Buf.Terminated;
      if ok {
        Reallocate(newSize);
      }
    }

    /** The switch over the schemes, with its two doubling loops */
    method FigureSize(req: nat) returns (ok: bool, newSize: nat)
      requires LoopEnds(alloc, use, size, req)
      ensures ok <==> NewSize(alloc, use, size, req).Some?
      ensures ok ==> newSize == NewSize(alloc, use, size, req).value
    {
      match alloc {
        case IO | DoubleIt =>
          newSize := Uint(if size != 0 then size * 2 else req + 10);
          ok, newSize := DoubleUp(newSize, req);
        case Exact =>
          return true, Uint(req + 10);
        case Hybrid =>
          if use < BASE_BUFFER_SIZE {
            return true, Uint(req);
          }
          newSize := Uint(size * 2);
          ok, newSize := DoubleUp(newSize, req);
        case _ =>
          return true, Uint(req + 10);
      }
    }

    /** The second half of xmlBufResize: a block with room for `newSize` bytes from `start` on, the contents kept */
    method Reallocate(newSize: nat)
      requires Shape() && alloc != Immutable && use < newSize
      modifies this`block, this`start, this`size, block
      ensures start == if io && old(start) > newSize then 0 else old(start)
      ensures Shape() && size == newSize && block != null && (block == old(block) || fresh(block))
      ensures Contents() == old(Contents())
      ensures old(Terminated()) ==> Terminated()
    {
      if alloc == IO && io {
        if start > newSize {
          MoveToFront(start);
        } else {
          block := Realloc(block, start + newSize, start + use + 1);
        }
      } else if block == null {
        block := new byte[newSize];
      } else if size - use < 100 {
        block := Realloc(block, newSize, use + 1);
      } else {
        block := CopyUsed(block, use, newSize);
      }
      size := newSize;
    }

    /** Room for `n` more bytes and a zero, as xmlBufAdd and xmlBufAddHead ask for it */
    method MakeRoom(n: nat) returns (r: int)
      requires Valid() && error == 0 && alloc != Immutable && Addable(use, size, n)
      modifies this, block
      ensures Valid() && (block == old(block) || fresh(block))
      ensures use == old(use) && alloc == old(alloc) && io == old(io)
      ensures r == RoomCode(alloc, use, old(size), n) && error == if r == 0 then 0 else NO_MEMORY
      ensures size == if r != 0 || old(use) + n + 2 <= old(size) then old(size) else Resized(alloc, old(use), old(size), old(use) + n + 2)
      ensures r == 0 ==> block != null && use + n + 2 <= size
      ensures Contents() == old(Contents())
      ensures old(Terminated()) ==> Terminated()
    {
      hide Resizes, Resized, NewSize;
      var needSize := Uint(use + n + 2);
      if needSize > size {
        if alloc == Bounded {
          if needSize >= XML_MAX_TEXT_LENGTH {
            MemoryError();
            return -1;
          }
        }
        var ok := Resize(needSize);
        if !ok {
          MemoryError();
          return NO_MEMORY;
        }
      }
      return 0;
    }

    /** The answer of xmlBufAdd */
    ghost function AddCode(str: Option<seq<byte>>, len: int): int
      requires Readable(str, len)
      reads this
    {
      if str.None? || error != 0 || alloc == Immutable || len < -1 then -1
      else if Piece(str, len) == [] then 0
      else RoomCode(alloc, use, size, |Piece(str, len)|)
    }

    /** xmlBufAdd */
    method Add(str: Option<seq<byte>>, len: int) returns (r: int)
      requires Valid() && Readable(str, len) && Addable(use, size, |Piece(str, len)|)
      modifies this, block
      ensures Valid() && alloc == old(alloc) && io == old(io) && (block == old(block) || fresh(block))
      ensures r == old(AddCode(str, len))
      ensures old(error) != 0 || str.None? || alloc == Immutable || len < -1 ==> r == -1
      ensures old(error) == 0 && str.Some? && alloc != Immutable && len >= -1 && Piece(str, len) == [] ==> r == 0
      ensures r != 0 || Piece(str, len) == [] || old(use) + |Piece(str, len)| + 2 <= old(size) ==> size == old(size)
      ensures r == 0 && Piece(str, len) != [] && old(use) + |Piece(str, len)| + 2 > old(size) ==>
        size == Resized(alloc, old(use), old(size), old(use) + |Piece(str, len)| + 2)
      ensures error == if old(error) == 0 && r != 0 && str.Some? && alloc != Immutable && len >= -1 then NO_MEMORY else old(error)
      ensures r == 0 ==> Contents() == old(Contents()) + Piece(str, len)
      ensures r != 0 ==> Contents() == old(Contents())
      ensures old(Terminated()) || (r == 0 && Piece(str, len) != []) ==> Terminated()
    {
      assert io ==> alloc == IO;
      hide RoomCode, Resizes, Resized, StrEnd, Buf.Shape, Buf.Contents, Buf.Terminated, Addable;
      if str.None? || error != 0 {
        return -1;
      }
      CheckCompat();
      if alloc == Immutable || len < -1 {
        return -1;
      }
      r := AddText(str.value, len);
    }

    /** xmlBufAdd behind its guards */
    method AddText(str: seq<byte>, len: int) returns (r: int)
      requires Valid() && error == 0 && alloc != Immutable && len >= -1 && Readable(Some(str), len)
      requires Addable(use, size, |Piece(Some(str), len)|)
      modifies this, block
      ensures Valid() && alloc == old(alloc) && io == old(io) && (block == old(block) || fresh(block))
      ensures var s := Piece(Some(str), len);
        r == (if s == [] then 0 else RoomCode(alloc, old(use), old(size), |s|)) && error == if r == 0 then 0 else NO_MEMORY
      ensures var s := Piece(Some(str), len);
        size == if r != 0 || s == [] || old(use) + |s| + 2 <= old(size) then old(size)
        else Resized(alloc, old(use), old(size), old(use) + |s| + 2)
      ensures r == 0 ==> Contents() == old(Contents()) + Piece(Some(str), len)
      ensures r != 0 ==> Contents() == old(Contents())
      ensures old(Terminated()) || (r == 0 && Piece(Some(str), len) != []) ==> Terminated()
    {
      hide RoomCode, Resizes, Resized, StrEnd, Buf.Shape, Buf.Contents, Buf.Terminated, Addable;
      if len == 0 {
        return 0;
      }
      var n := len;
      if len < 0 {
        n := StrLen(str);
      }
      if n == 0 {
        return 0;
      }
      r := AddPiece(str[..n]);
    }

    method AddPiece(s: seq<byte>) returns (r: int)
      requires Valid() && error == 0 && alloc != Immutable && s != [] && Addable(use, size, |s|)
      modifies this, block
      ensures Valid() && alloc == old(alloc) && io == old(io) && (block == old(block) || fresh(block))
      ensures r == RoomCode(alloc, old(use), old(size), |s|) && error == if r == 0 then 0 else NO_MEMORY
      ensures size == if r != 0 || old(use) + |s| + 2 <= old(size) then old(size) else Resized(alloc, old(use), old(size), old(use) + |s| + 2)
      ensures r == 0 ==> Contents() == old(Contents()) + s
      ensures r != 0 ==> Contents() == old(Contents())
      ensures old(Terminated()) || r == 0 ==> Terminated()
    {
      hide RoomCode, Resizes, Resized;
      r := MakeRoom(|s|);
      if r != 0 {
        return;
      }
      WriteBehind(s);
      UpdateCompat();
    }

    method WriteBehind(s: seq<byte>)
      requires Shape() && alloc != Immutable && block != null && use + |s| < size
      modifies this`use, block
      ensures Shape() && Contents() == old(Contents()) + s && Terminated()
    {
      PutBehind(block, start, use, s);
      use := use + |s|;
    }

    /** xmlBufCat */
    method Cat(str: Option<seq<byte>>) returns (r: int)
      requires Valid() && Readable(str, -1) && Addable(use, size, |Piece(str, -1)|)
      modifies this, block
      ensures Valid() && alloc == old(alloc) && io == old(io) && (block == old(block) || fresh(block))
      ensures r == old(AddCode(str, -1))
      ensures error == if old(error) == 0 && r != 0 && str.Some? && alloc != Immutable then NO_MEMORY else old(error)
      ensures r == 0 ==> Contents() == old(Contents()) + Piece(str, -1)
      ensures r != 0 ==> Contents() == old(Contents())
      ensures old(Terminated()) || (r == 0 && Piece(str, -1) != []) ==> Terminated()
    {
      hide RoomCode;
      if error != 0 {
        return -1;
      }
      CheckCompat();
      if alloc == Immutable || str.None? {
        return -1;
      }
      r := Add(str, -1);
    }

    /** The answer of xmlBufAddHead; unlike xmlBufAdd it refuses an empty string of length -1. */
    ghost function AddHeadCode(str: Option<seq<byte>>, len: int): int
      requires Readable(str, len)
      reads this
    {
      if str.None? || error != 0 || alloc == Immutable || len < -1 then -1
      else if Piece(str, len) == [] then len
      else if io && start > |Piece(str, len)| then 0
      else RoomCode(alloc, use, size, |Piece(str, len)|)
    }

    /** xmlBufAddHead */
    method AddHead(str: Option<seq<byte>>, len: int) returns (r: int)
      requires Valid() && Readable(str, len) && Addable(use, size, |Piece(str, len)|)
      modifies this, block
      ensures Valid() && alloc == old(alloc) && io == old(io) && (block == old(block) || fresh(block))
      ensures r == old(AddHeadCode(str, len))
      ensures old(error) != 0 || str.None? || alloc == Immutable || len < -1 ==> r == -1
      ensures old(error) == 0 && str.Some? && alloc != Immutable && len == 0 ==> r == 0
      ensures len == -1 && str.Some? && CString(str.value) == [] ==> r == -1
      ensures !(io && old(start) > |Piece(str, len)|) || Piece(str, len) == [] || r != 0 ==>
        size == if r != 0 || Piece(str, len) == [] || old(use) + |Piece(str, len)| + 2 <= old(size) then old(size)
                else Resized(alloc, old(use), old(size), old(use) + |Piece(str, len)| + 2)
      ensures r == 0 && Piece(str, len) != [] && io && old(start) > |Piece(str, len)| ==>
        start == old(start) - |Piece(str, len)| && size == old(size) + |Piece(str, len)| && block == old(block)
      ensures r == 0 ==> Contents() == Piece(str, len) + old(Contents())
      ensures r != 0 ==> Contents() == old(Contents())
      ensures error == old(error) || (error == NO_MEMORY && r != 0)
      ensures old(Terminated()) || (r == 0 && Piece(str, len) != [] && !io) ==> Terminated()
    {
      hide RoomCode, Buf.Shape, Buf.Contents, Buf.Terminated, Addable;
      if error != 0 {
        return -1;
      }
      CheckCompat();
      if alloc == Immutable || str.None? || len < -1 {
        return -1;
      }
      if len == 0 {
        return 0;
      }
      var n := len;
      if len < 0 {
        n := StrLen(str.value);
      }
      if n <= 0 {
        return -1;
      }
      r := PutAhead(Piece(str, len));
    }

    /** The bytes go into the gap of an IO buffer if it is larger, otherwise in front of the contents moved up. */
    method PutAhead(s: seq<byte>) returns (r: int)
      requires Valid() && error == 0 && alloc != Immutable && s != [] && Addable(use, size, |s|)
      modifies this, block
      ensures Valid() && alloc == old(alloc) && io == old(io) && (block == old(block) || fresh(block))
      ensures r == if io && old(start) > |s| then 0 else RoomCode(alloc, old(use), old(size), |s|)
      ensures io && old(start) > |s| ==> block == old(block) && start == old(start) - |s| && size == old(size) + |s|
      ensures !(io && old(start) > |s|) ==>
        size == if r != 0 || old(use) + |s| + 2 <= old(size) then old(size) else Resized(alloc, old(use), old(size), old(use) + |s| + 2)
      ensures error == if r == 0 then 0 else NO_MEMORY
      ensures r == 0 ==> Contents() == s + old(Contents())
      ensures r != 0 ==> Contents() == old(Contents())
      ensures old(Terminated()) || (r == 0 && !io) ==> Terminated()
    {
      assert io ==> alloc == IO;
      hide RoomCode, Buf.Shape, Buf.Contents, Buf.Terminated, Addable;
      if alloc == IO && io && start > |s| {
        PushIntoGap(s);
        return 0;
      }
      r := PushPiece(s);
    }

    /** The space given up by xmlBufShrink is used again. */
    method PushIntoGap(s: seq<byte>)
      requires Valid() && io && start > |s|
      modifies this, block
      ensures Valid() && alloc == old(alloc) && io && block == old(block) && error == old(error)
      ensures start == old(start) - |s| && size == old(size) + |s|
      ensures Contents() == s + old(Contents())
      ensures old(Terminated()) ==> Terminated()
    {
      FillGap(s);
      UpdateCompat();
    }

    method FillGap(s: seq<byte>)
      requires Shape() && io && start > |s|
      modifies this`start, this`use, this`size, block
      ensures Shape() && Contents() == s + old(Contents())
      ensures start == old(start) - |s| && size == old(size) + |s|
      ensures old(Terminated()) ==> Terminated()
    {
      PutInGap(block, start, use, s);
      start := start - |s|;
      use, size := use + |s|, size + |s|;
    }

    method PushPiece(s: seq<byte>) returns (r: int)
      requires Valid() && error == 0 && alloc != Immutable && s != [] && Addable(use, size, |s|)
      modifies this, block
      ensures Valid() && alloc == old(alloc) && io == old(io) && (block == old(block) || fresh(block))
      ensures r == RoomCode(alloc, old(use), old(size), |s|) && error == if r == 0 then 0 else NO_MEMORY
      ensures size == if r != 0 || old(use) + |s| + 2 <= old(size) then old(size) else Resized(alloc, old(use), old(size), old(use) + |s| + 2)
      ensures r == 0 ==> Contents() == s + old(Contents())
      ensures r != 0 ==> Contents() == old(Contents())
      ensures old(Terminated()) || r == 0 ==> Terminated()
    {
      hide RoomCode, Resizes, Resized;
      r := MakeRoom(|s|);
      if r != 0 {
        return;
      }
      WriteBefore(s);
      UpdateCompat();
    }

    method WriteBefore(s: seq<byte>)
      requires Shape() && alloc != Immutable && block != null && use + |s| < size
      modifies this`use, block
      ensures Shape() && Contents() == s + old(Contents()) && Terminated()
    {
      PutBefore(block, start, use, s);
      use := use + |s|;
    }

    /** xmlBufCCat. The loop changes `use` without its copy, see Catted for what that does. */
    method CCat(str: Option<seq<byte>>) returns (r: int)
      requires Valid() && Readable(str, -1) && use + |Piece(str, -1)| + 10 <= INT_MAX
      requires error == 0 && alloc != Immutable && str.Some? ==> block != null || Piece(str, -1) != []
      modifies this, block
      ensures Valid() && alloc == old(alloc) && io == old(io) && (block == old(block) || fresh(block))
      ensures old(error) != 0 || alloc == Immutable || str.None? ==> r == -1 && Contents() == old(Contents()) && error == old(error)
      ensures r == -1 && old(Terminated()) ==> Terminated()
      ensures old(error) == 0 && alloc != Immutable && str.Some? ==>
        var c := Catted(alloc, old(use), [], old(size), Piece(str, -1));
        r == (if c.ok then 0 else NO_MEMORY) && error == r && Contents() == old(Contents()) + c.kept && (c.ok ==> Terminated())
    {
      hide Catted;
      if error != 0 {
        return -1;
      }
      CheckCompat();
      if alloc == Immutable || str.None? {
        return -1;
      }
      r := CatAll(str.value);
    }

    method CatAll(str: seq<byte>) returns (r: int)
      requires Valid() && error == 0 && alloc != Immutable && 0 in str && use + StrEnd(str) + 10 <= INT_MAX
      requires block != null || CString(str) != []
      modifies this, block
      ensures Valid() && alloc == old(alloc) && io == old(io) && (block == old(block) || fresh(block))
      ensures r == error == if Catted(alloc, old(use), [], old(size), CString(str)).ok then 0 else NO_MEMORY
      ensures Contents() == old(Contents()) + Catted(alloc, old(use), [], old(size), CString(str)).kept
      ensures r == 0 ==> Terminated()
    {
      assert CatState(use, [], Contents());
      hide Resizes, Resized, StrEnd, Catted, Checked, Updated;
      ghost var was := Contents();
      var ok;
      ghost var pending;
      ok, pending := CatBytes(str, use, was);
      if !ok {
        assert was + [] == was;
        return NO_MEMORY;
      }
      Terminate();
      return 0;
    }

    /** The loop of xmlBufCCat */
    method CatBytes(str: seq<byte>, ghost base: nat, ghost was: seq<byte>) returns (ok: bool, ghost pending: seq<byte>)
      requires CatState(base, [], was) && |was| == base && 0 in str && base + StrEnd(str) + 10 <= INT_MAX
      requires block != null || CString(str) != []
      modifies this, block
      ensures alloc == old(alloc) && io == old(io) && (block == old(block) || fresh(block))
      ensures Catted(alloc, base, [], old(size), CString(str)) == if ok then CatResult(true, pending) else CatResult(false, [])
      ensures ok ==> CatState(base, pending, was) && block != null
      ensures !ok ==> Valid() && Contents() == was && error == NO_MEMORY
    {
      hide Resizes, Resized, StrEnd, Checked, Updated;
      ghost var s := CString(str);
      pending := [];
      var cur := 0;
      while str[cur] != 0
        invariant 0 <= cur <= |s| && |pending| <= cur
        invariant alloc == old(alloc) && io == old(io) && (block == old(block) || fresh(block))
        invariant CatState(base, pending, was) && (block == null ==> cur == 0)
        invariant Catted(alloc, base, [], old(size), s) == Catted(alloc, base, pending, size, s[cur..])
        decreases |s| - cur
      {
        StopsAtZero(str, cur);
        ok, pending := CatByte(str[cur], base, pending, was, s[cur..]);
        if !ok {
          pending := [];
          return;
        }
        cur := cur + 1;
      }
      StopsAtZero(str, cur);
      ok := true;
    }

    /** Inside the loop of xmlBufCCat: `pending` is written behind the old contents, but not yet entered in the copies. */
    ghost predicate CatState(base: nat, pending: seq<byte>, was: seq<byte>)
      reads this, block
    {
      Shape() && error == 0 && alloc != Immutable && Checked(size, compatSize) == size
      && compatUse == base < INT_MAX && use == base + |pending| && Contents() == was + pending
    }

    /** One round of the loop */
    method CatByte(c: byte, ghost base: nat, ghost pending: seq<byte>, ghost was: seq<byte>, ghost rest: seq<byte>)
      returns (ok: bool, ghost pending': seq<byte>)
      requires CatState(base, pending, was) && |was| == base && use + 10 <= INT_MAX && rest != [] && c == rest[0]
      modifies this, block
      ensures alloc == old(alloc) && io == old(io) && (block == old(block) || fresh(block))
      ensures ok ==> CatState(base, pending', was) && block != null && |pending'| <= |pending| + 1
      ensures ok ==> Catted(alloc, base, pending, old(size), rest) == Catted(alloc, base, pending', size, rest[1..])
      ensures !ok ==> Valid() && Contents() == was && error == NO_MEMORY
      ensures !ok ==> Catted(alloc, base, pending, old(size), rest) == CatResult(false, [])
    {
      CattedStep(alloc, base, pending, size, rest);
      hide Resizes, Resized, Catted;
      pending' := pending;
      if use + 10 >= size {
        ok := CatGrow(base, pending, was);
        if !ok {
          return;
        }
        pending' := [];
      }
      hide Checked;
      PutByte(c);
      assert was + pending' + [c] == was + (pending' + [c]);
      pending' := pending' + [c];
      ok := true;
    }

    /** Growing puts `use` back. */
    method CatGrow(ghost base: nat, ghost pending: seq<byte>, ghost was: seq<byte>) returns (ok: bool)
      requires CatState(base, pending, was) && |was| == base && use + 10 <= INT_MAX && use + 10 >= size
      modifies this, block
      ensures alloc == old(alloc) && io == old(io) && (block == old(block) || fresh(block))
      ensures ok <==> Resizes(alloc, base, old(size), base + |pending| + 10)
      ensures ok ==> size == Resized(alloc, base, old(size), base + |pending| + 10)
      ensures ok ==> CatState(base, [], was) && block != null && use + 10 <= size
      ensures !ok ==> Valid() && Contents() == was && error == NO_MEMORY
    {
      hide Resizes, Resized;
      ok := Resize(use + 10);
      assert (was + pending)[..base] == was && was + [] == was;
      if !ok {
        MemoryError();
      }
    }

    method PutByte(c: byte)
      requires Shape() && alloc != Immutable && block != null && use + 1 < size
      modifies this`use, block
      ensures Shape() && use == old(use) + 1 && Contents() == old(Contents()) + [c]
    {
      block[start + use] := c;
      use := use + 1;
    }

    method Terminate()
      requires Shape() && alloc != Immutable && block != null && Checked(size, compatSize) == size
      modifies this`compatUse, this`compatSize, block
      ensures Valid() && Contents() == old(Contents()) && Terminated()
    {
      block[start + use] := 0;
      UpdateCompat();
    }

    /** xmlBufGrowInternal: 0 for an error, otherwise the room there is, which is more than was asked for. */
    method GrowInternal(len: nat) returns (room: nat)
      requires Valid() && size < 0x4000_0000_0000_0000 && len < 0x4000_0000_0000_0000
      modifies this, block
      ensures Valid() && alloc == old(alloc) && io == old(io) && (block == old(block) || fresh(block))
      ensures use == old(use) && Contents() == old(Contents()) && (old(Terminated()) ==> Terminated())
      ensures room > 0 <==> old(error) == 0 && alloc != Immutable && Grown(alloc, use, old(size), len).Some?
      ensures room > 0 ==> size == Grown(alloc, use, old(size), len).value && room == size - use > len && error == 0
      ensures room == 0 ==> error == if old(error) == 0 && alloc != Immutable then NO_MEMORY else old(error)
      ensures room == 0 <==> old(error) != 0 || alloc == Immutable
                             || (alloc == Bounded && use + len >= old(size) && use + len >= 10_000_000)
      ensures room == 0 || use + len < old(size) ==> size == old(size)
      ensures room > 0 && use + len >= old(size) ==>
        var n := if old(size) > len then 2 * old(size) else use + len + 100;
        size == if alloc == Bounded && n > 10_000_000 then 10_000_000 else n
    {
      if error != 0 {
        return 0;
      }
      CheckCompat();
      if alloc == Immutable {
        return 0;
      }
      if use + len < size {
        return size - use;
      }
      room := GrowBlock(len);
      UpdateCompat();
    }

    method GrowBlock(len: nat) returns (room: nat)
      requires Shape() && error == 0 && alloc != Immutable && use + len >= size
      modifies this`block, this`size, this`error, block
      ensures Shape() && (block == old(block) || fresh(block))
      ensures Contents() == old(Contents()) && (old(Terminated()) ==> Terminated())
      ensures var g := GrownSize(alloc, use, old(size), len);
        if g.None? then room == 0 && error == NO_MEMORY && size == old(size)
        else size == g.value && room == size - use > len && error == 0
    {
      GrownSizeSuffices(alloc, use, size, len);
      var newSize := if size > len then size * 2 else use + len + 100;
      if alloc == Bounded {
        if use + len >= XML_MAX_TEXT_LENGTH || size >= XML_MAX_TEXT_LENGTH {
          MemoryError();
          return 0;
        }
        if newSize >= XML_MAX_TEXT_LENGTH {
          newSize := XML_MAX_TEXT_LENGTH;
        }
      }
      Extend(newSize);
      return size - use;
    }

    method Extend(newSize: nat)
      requires Shape() && alloc != Immutable && size < newSize
      modifies this`block, this`size, block
      ensures Shape() && size == newSize && (block == old(block) || fresh(block))
      ensures Contents() == old(Contents()) && (old(Terminated()) ==> Terminated())
    {
      if alloc == IO && io {
        block := Realloc(block, start + newSize, if block == null then 0 else start + use + 1);
      } else {
        block := Realloc(block, newSize, if block == null then 0 else use + 1);
      }
      size := newSize;
    }

    /** xmlBufGrow; the answer is the room cut down to an int. */
    method Grow(len: int) returns (r: int)
      requires Valid() && size < 0x4000_0000_0000_0000 && len <= INT_MAX
      modifies this, block
      ensures Valid() && alloc == old(alloc) && io == old(io) && (block == old(block) || fresh(block))
      ensures use == old(use) && Contents() == old(Contents()) && (old(Terminated()) ==> Terminated())
      ensures len <= 0 ==> r == (if len < 0 then -1 else 0) && size == old(size) && error == old(error)
      ensures len > 0 && error != 0 ==> r == -1
      ensures len > 0 && error == 0 && alloc == Immutable ==> r == 0
      ensures len > 0 && old(error) == 0 && alloc != Immutable ==>
        (error == 0 <==> Grown(alloc, use, old(size), len).Some?)
      ensures len > 0 && old(error) == 0 && alloc != Immutable ==>
        (error != 0 <==> alloc == Bounded && use + len >= old(size) && use + len >= 10_000_000)
      ensures len > 0 && error == 0 && alloc != Immutable && use + len >= old(size) ==>
        var n := if old(size) > len then 2 * old(size) else use + len + 100;
        size == if alloc == Bounded && n > 10_000_000 then 10_000_000 else n
      ensures error != 0 || use + len < old(size) ==> size == old(size)
      ensures len > 0 && error == 0 && alloc != Immutable ==>
        -0x8000_0000 <= r < 0x8000_0000 && (r - (size - use)) % 0x1_0000_0000 == 0
      ensures len > 0 && error == 0 && alloc != Immutable ==>
        old(error) == 0 && Some(size) == Grown(alloc, use, old(size), len) && size - use > len && r == Int(size - use)
    {
      hide Grown;
      if len < 0 {
        return -1;
      }
      if len == 0 {
        return 0;
      }
      var room := GrowInternal(len);
      if error != 0 {
        return -1;
      }
      return Int(room);
    }
  }

  method DoubleUp(n: nat, req: nat) returns (ok: bool, newSize: nat)
    requires n > 0 || req == 0
    ensures ok <==> Doubled(n, req).Some?
    ensures ok ==> newSize == Doubled(n, req).value
  {
    newSize := n;
    while req > newSize
      invariant newSize > 0 || req == 0
      invariant Doubled(n, req) == Doubled(newSize, req)
      decreases req - newSize
    {
      if newSize > UINT_MAX / 2 {
        return false, newSize;
      }
      newSize := newSize * 2;
    }
    return true, newSize;
  }
}
