/** The sizes and answers of buf.c in terms of the numbers of a call. */
module BufferLaws {
  import opened Basics
  import opened CStrings
  import opened BufGrowth
  import opened Buffer

  // ---- xmlBufResize ----

  /** `r` is the least of n, 2 * n, 4 * n, ... that is at least `req`, or None if that does not fit in 32 bits. */
  ghost predicate LeastDoubling(n: nat, req: nat, r: Option<nat>) {
    match r
    case None => forall k: nat :: !Reaches(n, k, req)
    case Some(m) => exists k: nat :: Reaches(n, k, req) && m == n * Pow2(k) && forall j: nat :: j < k ==> n * Pow2(j) < req
  }

  lemma DoubledIsLeast(n: nat, req: nat)
    requires 0 < n <= 0xffff_ffff || (n == 0 && req == 0)
    ensures LeastDoubling(n, req, Doubled(n, req))
  {
    if n == 0 {
      assert Reaches(0, 0, 0) && 0 * Pow2(0) == 0;
    } else {
      DoublingIsExact(n, req);
      hide Doubled;
      if Doubled(n, req).Some? {
        var k: nat :| Reaches(n, k, req) && Doubled(n, req).value == n * Pow2(k) && forall j: nat :: j < k ==> !Reaches(n, j, req);
        forall j: nat | j < k ensures n * Pow2(j) < req {
          PowerGrows(n, j, k);
          assert !Reaches(n, j, req);
        }
      }
    }
  }

  /** The size a request of at least `size` bytes leads to, in 32 bits */
  ghost predicate SizeFor(alloc: Scheme, use: nat, size: nat, req: nat, r: Option<nat>) {
    match alloc
    case Exact => r == Some((req + 10) % 0x1_0000_0000)
    case Bounded => r == Some((req + 10) % 0x1_0000_0000)
    case Hybrid =>
      if use < 4096 then r == Some(req % 0x1_0000_0000) else LeastDoubling(2 * size % 0x1_0000_0000, req, r)
    case Immutable => r == None
    case _ => LeastDoubling((if size > 0 then 2 * size else req + 10) % 0x1_0000_0000, req, r)
  }

  /** Which requests fail, and what size the others lead to */
  lemma ResizeIs(alloc: Scheme, use: nat, size: nat, req: nat)
    requires LoopEnds(alloc, use, size, req)
    ensures alloc == Immutable || (alloc == Bounded && req >= 10_000_000) ==> !Resizes(alloc, use, size, req)
    ensures alloc != Immutable && !(alloc == Bounded && req >= 10_000_000) && req < size ==>
      Resizes(alloc, use, size, req) && Resized(alloc, use, size, req) == size
    ensures alloc != Immutable && !(alloc == Bounded && req >= 10_000_000) && req >= size ==>
      SizeFor(alloc, use, size, req, if Resizes(alloc, use, size, req) then Some(Resized(alloc, use, size, req)) else None)
  {
    if Doubles(alloc, use) {
      DoubledIsLeast(FirstSize(alloc, use, size, req), req);
    }
    hide Doubled, LeastDoubling;
  }

  lemma OneOutcome(alloc: Scheme, use: nat, size: nat, req: nat, m: nat)
    requires SizeFor(alloc, use, size, req, Some(m))
    ensures !SizeFor(alloc, use, size, req, None)
  {
  }

  // ---- xmlBufAdd and xmlBufAddHead ----

  /** The answer of the two when they need room for `n` bytes and the zero */
  lemma RoomIs(alloc: Scheme, use: nat, size: nat, n: nat)
    requires alloc != Immutable && use <= size && Addable(use, size, n)
    ensures use + n + 2 <= size ==> RoomCode(alloc, use, size, n) == 0
    ensures use + n + 2 > size && alloc == Bounded ==>
      RoomCode(alloc, use, size, n) == if use + n + 2 >= 10_000_000 then -1 else 0
    ensures use + n + 2 > size && (alloc == Exact || (alloc == Hybrid && use < 4096)) ==> RoomCode(alloc, use, size, n) == 0
    ensures use + n + 2 > size && (alloc == IO || alloc == DoubleIt || (alloc == Hybrid && use >= 4096)) ==>
      RoomCode(alloc, use, size, n) == if SizeFor(alloc, use, size, use + n + 2, None) then 2 else 0
  {
    var req := use + n + 2;
    if size < req {
      NewSizeSuffices(alloc, use, size, req);
      ResizeIs(alloc, use, size, req);
      if Resizes(alloc, use, size, req) {
        hide SizeFor;
        if !(alloc == Bounded && req >= 10_000_000) {
          OneOutcome(alloc, use, size, req, Resized(alloc, use, size, req));
        }
      }
    }
    hide Doubled, Resized, NewSize, LoopEnds, LeastDoubling;
  }

  /** The bytes a call adds: so many, or those before the first zero */
  lemma PieceIs(str: seq<byte>, len: int, k: nat)
    requires Readable(Some(str), len)
    ensures len < -1 ==> Piece(Some(str), len) == []
    ensures len >= 0 ==> Piece(Some(str), len) == str[..len]
    ensures len == -1 && k < |str| && str[k] == 0 && 0 !in str[..k] ==> Piece(Some(str), len) == str[..k]
  {
    if len == -1 && k < |str| && str[k] == 0 && 0 !in str[..k] {
      EndIs(str, k);
    }
  }

  // ---- xmlBufCCat ----

  /** What fits behind `pending` is added to it; the byte after that makes the buffer grow and starts again. */
  lemma CattedIs(alloc: Scheme, base: nat, pending: seq<byte>, size: nat, rest: seq<byte>)
    ensures var room := if base + |pending| + 10 < size then size - (base + |pending| + 10) else 0;
      if |rest| <= room then Catted(alloc, base, pending, size, rest) == CatResult(true, pending + rest)
      else
        var req := base + |pending| + room + 10;
        Catted(alloc, base, pending, size, rest) ==
          if Resizes(alloc, base, size, req)
          then Catted(alloc, base, [rest[room]], Resized(alloc, base, size, req), rest[room + 1..])
          else CatResult(false, [])
  {
    hide Resizes, Resized, Catted;
    var room := if base + |pending| + 10 < size then size - (base + |pending| + 10) else 0;
    if |rest| <= room || rest == [] {
      CattedKeepsAll(alloc, base, pending, size, rest);
    } else {
      CattedFills(alloc, base, pending, size, rest, room);
      CattedStep(alloc, base, pending + rest[..room], size, rest[room..]);
      assert [] + [rest[room]] == [rest[room]] && rest[room..][1..] == rest[room + 1..];
    }
  }
}
