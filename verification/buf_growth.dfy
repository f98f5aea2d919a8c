/** The arithmetic of buf.c: which size a buffer gets when it has to grow, and the 32-bit copies of its sizes. */
module BufGrowth {
  import opened Basics

  const UINT_MAX := 0xffff_ffff
  const INT_MAX := 0x7fff_ffff
  const XML_MAX_TEXT_LENGTH := 10_000_000
  const BASE_BUFFER_SIZE := 4096

  datatype Scheme = DoubleIt | Exact | Immutable | IO | Hybrid | Bounded

  /** Assignment to an unsigned int */
  function Uint(n: nat): (r: nat)
    ensures r <= UINT_MAX && (n <= UINT_MAX ==> r == n)
  {
    n % (UINT_MAX + 1)
  }

  // ---- the compatibility fields ----

  /** The value UPDATE_COMPAT stores for the field value `n` */
  function Updated(n: nat): nat {
    if n < INT_MAX then n else INT_MAX
  }

  /** The field value CHECK_COMPAT leaves, given the stored value `compat` */
  function Checked(n: nat, compat: nat): nat {
    if n != compat && compat < INT_MAX then compat else n
  }

  /** A check right after an update changes nothing, whatever the size; after another assignment it takes it back. */
  lemma CheckAfterUpdate(n: nat, m: nat)
    ensures Checked(n, Updated(n)) == n
    ensures Checked(m, Updated(n)) == m <==> m == n || n >= 0x7fff_ffff
  {
  }

  // ---- xmlBufResize ----

  predicate Doubles(alloc: Scheme, use: nat) {
    alloc == IO || alloc == DoubleIt || (alloc == Hybrid && use >= BASE_BUFFER_SIZE)
  }

  /** `newSize` before any doubling */
  function FirstSize(alloc: Scheme, use: nat, size: nat, req: nat): nat {
    if Doubles(alloc, use) then Uint(if size != 0 || alloc == Hybrid then size * 2 else req + 10)
    else if alloc == Hybrid then Uint(req)
    else Uint(req + 10)
  }

  /** The doubling loop makes progress unless it starts from 0. */
  predicate LoopEnds(alloc: Scheme, use: nat, size: nat, req: nat) {
    Doubles(alloc, use) ==> FirstSize(alloc, use, size, req) > 0 || req == 0
  }

  function Pow2(k: nat): nat {
    if k == 0 then 1 else 2 * Pow2(k - 1)
  }

  /** The doubling loop, which gives up before it would wrap around */
  function Doubled(n: nat, req: nat): Option<nat>
    requires n > 0 || req == 0
    decreases req - n
  {
    if req <= n then Some(n) else if n > UINT_MAX / 2 then None else Doubled(n * 2, req)
  }

  predicate Reaches(n: nat, k: nat, req: nat) {
    req <= n * Pow2(k) <= UINT_MAX
  }

  lemma {:induction false} PowerGrows(n: nat, j: nat, k: nat)
    requires j <= k
    ensures n * Pow2(j) <= n * Pow2(k)
    decreases k
  {
    if j < k {
      PowerGrows(n, j, k - 1);
      assert n * Pow2(k) == 2 * (n * Pow2(k - 1));
    }
  }

  /** The loop finds the least doubling that is large enough, and gives up exactly when none fits in 32 bits. */
  lemma {:induction false} DoublingIsExact(n: nat, req: nat)
    requires 0 < n <= UINT_MAX
    ensures Doubled(n, req).None? <==> forall k: nat :: !Reaches(n, k, req)
    ensures Doubled(n, req).Some? ==> exists k: nat ::
      Reaches(n, k, req) && Doubled(n, req).value == n * Pow2(k) && forall j: nat :: j < k ==> !Reaches(n, j, req)
    decreases req - n
  {
    assert n * Pow2(0) == n;
    if req <= n {
      assert Reaches(n, 0, req);
    } else if n > UINT_MAX / 2 {
      forall k: nat ensures !Reaches(n, k, req) {
        if k > 0 {
          PowerGrows(n, 1, k);
        }
      }
    } else {
      DoublingIsExact(n * 2, req);
      forall k: nat ensures n * 2 * Pow2(k) == n * Pow2(k + 1) && Reaches(n * 2, k, req) == Reaches(n, k + 1, req) {
      }
      assert !Reaches(n, 0, req);
      forall k: nat | k > 0 ensures Reaches(n, k, req) == Reaches(n * 2, k - 1, req) {
        assert k == k - 1 + 1;
      }
    }
  }

  lemma {:induction false} DoubledSuffices(n: nat, req: nat)
    requires 0 < n <= UINT_MAX || (n == 0 && req == 0)
    ensures Doubled(n, req).Some? ==> n <= Doubled(n, req).value && req <= Doubled(n, req).value <= UINT_MAX
    ensures Doubled(n, req).None? ==> req > UINT_MAX / 2 + 1
    decreases req - n
  {
    if n < req && n <= UINT_MAX / 2 {
      DoubledSuffices(n * 2, req);
    }
  }

  /** The size xmlBufResize settles on, or None if the doubling gives up */
  function NewSize(alloc: Scheme, use: nat, size: nat, req: nat): Option<nat>
    requires LoopEnds(alloc, use, size, req)
  {
    if Doubles(alloc, use) then Doubled(FirstSize(alloc, use, size, req), req)
    else Some(FirstSize(alloc, use, size, req))
  }

  /** With sizes below 2^31 the loop can only fail to end for one request, and the new size falls short of the request
      exactly when the ten bytes added to it, or the request itself, wrap around. */
  lemma NewSizeSuffices(alloc: Scheme, use: nat, size: nat, req: nat)
    requires size <= INT_MAX && use <= size <= req
    ensures LoopEnds(alloc, use, size, req) <==>
      !((alloc == IO || alloc == DoubleIt) && size == 0 && (req + 10) % (UINT_MAX + 1) == 0)
    ensures LoopEnds(alloc, use, size, req) && NewSize(alloc, use, size, req).Some? ==>
      (NewSize(alloc, use, size, req).value >= req <==>
        Doubles(alloc, use) || req <= (if alloc == Hybrid then UINT_MAX else UINT_MAX - 10))
    ensures LoopEnds(alloc, use, size, req) && NewSize(alloc, use, size, req).None? ==>
      Doubles(alloc, use) && req > INT_MAX
  {
    if LoopEnds(alloc, use, size, req) && Doubles(alloc, use) {
      DoubledSuffices(FirstSize(alloc, use, size, req), req);
    }
  }

  // ---- xmlBufGrowInternal ----

  /** The size after a call that has to make room for `len` more bytes, or None if the limit of bounded buffers stops it */
  function GrownSize(alloc: Scheme, use: nat, size: nat, len: nat): Option<nat> {
    var n := if size > len then size * 2 else use + len + 100;
    if alloc != Bounded then Some(n)
    else if use + len >= XML_MAX_TEXT_LENGTH || size >= XML_MAX_TEXT_LENGTH then None
    else if n >= XML_MAX_TEXT_LENGTH then Some(XML_MAX_TEXT_LENGTH)
    else Some(n)
  }

  /** Strictly more than `len` bytes are free afterwards, even under the limit, and the block has grown. */
  lemma GrownSizeSuffices(alloc: Scheme, use: nat, size: nat, len: nat)
    requires use <= size <= use + len && (use < size || size == 0)
    ensures GrownSize(alloc, use, size, len).Some? ==>
      GrownSize(alloc, use, size, len).value > size && GrownSize(alloc, use, size, len).value - use > len
    ensures alloc == Bounded ==>
      (GrownSize(alloc, use, size, len).None? <==> use + len >= XML_MAX_TEXT_LENGTH)
  {
  }
}
