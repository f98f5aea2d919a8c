/** The chain of string pools of a dictionary: bytes are only ever added behind the free pointer. */
module DictPool {
  import opened Basics
  import opened DictHash

  /** struct _xmlDictStrings; `end` and `size` are the length of the array. */
  class Pool {
    const bytes: array<byte>
    const next: Pool?
    var free: nat
    var nbStrings: nat

    constructor (size: nat, next: Pool?)
      ensures fresh(bytes) && bytes.Length == size && this.next == next && free == 0
    {
      bytes := new byte[size];
      this.next := next;
      free, nbStrings := 0, 0;
    }

    /** `n` bytes and a zero fit behind the free pointer. */
    predicate HasRoom(n: nat)
      reads this`free
    {
      bytes.Length - free > n
    }
  }

  /** A pointer to a name: nowhere, or an offset in a pool. */
  datatype Ptr = Null | At(pool: Pool, off: nat)

  /** The string `s`, with a zero behind it, lies at `p` in the used part of one of `pools`. */
  ghost predicate Stored(p: Ptr, s: seq<byte>, pools: seq<Pool>)
    reads pools, set q | q in pools :: q.bytes
  {
    && p.At? && p.pool in pools
    && p.off + |s| < p.pool.free <= p.pool.bytes.Length
    && (forall i {:trigger s[i]} :: 0 <= i < |s| ==> p.pool.bytes[p.off + i] == s[i])
    && p.pool.bytes[p.off + |s|] == 0
  }

  function Sizes(pools: seq<Pool>): nat {
    if pools == [] then 0 else pools[0].bytes.Length + Sizes(pools[1..])
  }

  /** The size of a new pool: four times the largest so far, or 1000, but at least four times the name */
  ghost predicate NewSize(size: nat, namelen: nat, pools: seq<Pool>) {
    size >= 4 * namelen
    && if pools == [] then size == 1000 || (size == 4 * namelen && size > 1000)
       else exists q :: q in pools && (forall p :: p in pools ==> p.bytes.Length <= q.bytes.Length)
                        && var n := if q.bytes.Length == 0 then 1000 else 4 * q.bytes.Length;
                           (size == n || (size == 4 * namelen && size > n))
  }

  lemma {:induction false} SizesAdd(ps: seq<Pool>, qs: seq<Pool>)
    ensures Sizes(ps + qs) == Sizes(ps) + Sizes(qs)
    ensures |ps| == 1 ==> Sizes(ps) == ps[0].bytes.Length
  {
    if ps == [] {
      assert ps + qs == qs;
    } else {
      assert (ps + qs)[1..] == ps[1..] + qs;
      SizesAdd(ps[1..], qs);
    }
  }

  /** The fields `strings` and `limit` of a dictionary. */
  class Strings {
    var strings: Pool?
    var limit: nat

    ghost var pools: seq<Pool>            // the chain, newest first
    ghost var mem: map<Ptr, seq<byte>>    // the strings added so far
    ghost var Repr: set<object>

    ghost predicate Chain()
      reads this`strings, this`pools
    {
      && strings == (if pools == [] then null else pools[0])
      && (forall i {:trigger pools[i].next} :: 0 <= i < |pools| ==>
            pools[i].next == if i + 1 < |pools| then pools[i + 1] else null)
    }

    ghost predicate Valid()
      reads this, Repr
    {
      && this in Repr
      && (forall q :: q in pools ==> q in Repr && q.bytes in Repr)
      && Chain()
      && (forall q, r :: q in pools && r in pools && q != r ==> q.bytes != r.bytes)
      && (forall p :: p in mem ==> Stored(p, mem[p], pools))
    }

    constructor (limit: nat)
      ensures Valid() && fresh(Repr) && this in Repr && mem == map[] && this.limit == limit && pools == []
    {
      strings, this.limit := null, limit;
      pools, mem, Repr := [], map[], {this};
    }

    /** No pool has room. */
    ghost predicate Full(n: nat)
      reads this, pools
    {
      forall q :: q in pools ==> !q.HasRoom(n)
    }

    /** The first pool of the chain that has room */
    ghost predicate FirstRoom(pool: Pool, n: nat)
      reads this, pools
    {
      exists k :: 0 <= k < |pools| && pool == pools[k] && pool.HasRoom(n) && forall j :: 0 <= j < k ==> !pools[j].HasRoom(n)
    }

    /** The first pool with room for `namelen` bytes and a zero, the largest size and the sum of the sizes. */
    method FindRoom(namelen: nat) returns (pool: Pool?, size: nat, total: nat)
      requires Valid()
      ensures pool != null ==> FirstRoom(pool, namelen)
      ensures pool == null ==> total == Sizes(pools) && Full(namelen)
      ensures pool == null ==> forall q :: q in pools ==> q.bytes.Length <= size
      ensures pool == null && pools != [] ==> exists q :: q in pools && q.bytes.Length == size
      ensures pool == null && pools == [] ==> size == 0
    {
      pool := strings;
      size, total := 0, 0;
      ghost var k := 0;
      while pool != null
        invariant 0 <= k <= |pools| && pool == if k < |pools| then pools[k] else null
        invariant forall j :: 0 <= j < k ==> !pools[j].HasRoom(namelen)
        invariant forall q :: q in pools[..k] ==> q.bytes.Length <= size
        invariant if k == 0 then size == 0 else exists q :: q in pools[..k] && q.bytes.Length == size
        invariant total + Sizes(pools[k..]) == Sizes(pools)
        decreases |pools| - k
      {
        if pool.bytes.Length - pool.free > namelen {
          return;
        }
        if pool.bytes.Length > size {
          size := pool.bytes.Length;
        }
        total := total + pool.bytes.Length;
        assert pools[..k + 1] == pools[..k] + [pools[k]];
        pool := pool.next;
        k := k + 1;
      }
      assert pools[..k] == pools;
    }

    /** The pool the next string goes to: the first with room, or else a new one unless the limit is passed */
    method TakePool(namelen: nat) returns (pool: Pool?)
      requires Valid()
      modifies this
      ensures Valid() && fresh(Repr - old(Repr)) && limit == old(limit) && mem == old(mem)
      ensures pool == null <==> limit > 0 && Sizes(old(pools)) > limit && old(Full(namelen))
      ensures pool == null || !old(Full(namelen)) ==> pools == old(pools)
      ensures pool != null ==> pool in pools && pool.HasRoom(namelen)
      ensures pool != null && !old(Full(namelen)) ==> FirstRoom(pool, namelen)
      ensures pool != null && old(Full(namelen)) ==>
        pools == [pool] + old(pools) && fresh(pool) && pool.free == 0 && NewSize(pool.bytes.Length, namelen, old(pools))
    {
      hide Strings.Valid, Sizes;
      var size, total;
      pool, size, total := FindRoom(namelen);
      if pool == null {
        if limit > 0 && total > limit {
          return null;
        }
        size := if size == 0 then 1000 else size * 4;
        if size < 4 * namelen {
          size := 4 * namelen;
        }
        pool := NewPool(size);
      }
    }

    /** xmlDictAddString */
    method AddString(name: seq<byte>, namelen: nat) returns (ret: Ptr)
      requires Valid() && namelen <= |name|
      modifies Repr
      ensures Valid() && this in Repr && fresh(Repr - old(Repr)) && limit == old(limit)
      ensures ret.Null? <==> limit > 0 && Sizes(old(pools)) > limit && old(Full(namelen))
      ensures old(Full(namelen)) <==> forall q :: q in old(pools) ==> q.bytes.Length - old(q.free) <= namelen
      ensures ret.Null? ==> mem == old(mem) && pools == old(pools)
      ensures ret.At? ==> ret !in old(mem) && mem == old(mem)[ret := name[..namelen]]
      ensures !old(Full(namelen)) ==> pools == old(pools)
                                      && exists k :: 0 <= k < |pools| && old(pools[k].HasRoom(namelen))
                                                     && ret == At(pools[k], old(pools[k].free))
                                                     && forall j :: 0 <= j < k ==> !old(pools[j].HasRoom(namelen))
      ensures ret.At? ==> ret.pool.free == ret.off + namelen + 1
      ensures ret.At? && old(Full(namelen)) ==>
        pools != [] && pools[1..] == old(pools) && ret == At(pools[0], 0)
        && NewSize(pools[0].bytes.Length, namelen, old(pools))
    {
      hide Sizes, NewSize;
      var pool := TakePool(namelen);
      if pool == null {
        return Null;
      }
      hide Strings.Full, Strings.FirstRoom;
      ret := Write(pool, name, namelen);
    }

    /** memcmp of a stored name with `l` bytes of `name` */
    method Same(p: Ptr, name: seq<byte>, l: nat) returns (same: bool)
      requires Valid() && p in mem && |mem[p]| == l <= |name|
      ensures same <==> mem[p] == name[..l]
    {
      assert Stored(p, mem[p], pools);
      for i := 0 to l
        invariant mem[p][..i] == name[..i]
      {
        if p.pool.bytes[p.off + i] != name[i] {
          assert mem[p][i] != name[..l][i];
          return false;
        }
      }
      assert mem[p][..l] == mem[p];
      return true;
    }

    /** The key of a stored name */
    method HashStored(p: Ptr, l: nat, size: nat, seed: bv32) returns (key: nat)
      requires Valid() && p in mem && |mem[p]| == l
      ensures key == Key(size, mem[p], seed)
    {
      assert Stored(p, mem[p], pools);
      var name := p.pool.bytes[p.off..p.off + l + 1];
      assert name[..l] == mem[p];
      key := ComputeKey(size, name, l, seed);
    }

    method NewPool(size: nat) returns (pool: Pool)
      requires Valid()
      modifies this
      ensures Valid() && fresh(Repr - old(Repr)) && limit == old(limit) && mem == old(mem)
      ensures pools == [pool] + old(pools) && fresh(pool) && pool.bytes.Length == size && pool.free == 0
    {
      pool := new Pool(size, strings);
      strings := pool;
      ghost var former := pools;
      pools := [pool] + pools;
      Repr := Repr + {pool, pool.bytes};
      forall p | p in mem
        ensures Stored(p, mem[p], pools)
      {
        assert Stored(p, mem[p], former);
      }
    }

    /** The string goes behind the free pointer, and the pointer moves on: nothing stored earlier is touched. */
    method Write(pool: Pool, name: seq<byte>, namelen: nat) returns (ret: Ptr)
      requires Valid() && namelen <= |name| && pool in pools
      requires pool.bytes.Length - pool.free > namelen
      modifies this`mem, pool, pool.bytes
      ensures Valid() && ret !in old(mem) && mem == old(mem)[ret := name[..namelen]]
      ensures ret == At(pool, old(pool.free)) && pool.free == ret.off + namelen + 1
    {
      hide Strings.Chain;
      ret := At(pool, pool.free);
      assert ret !in mem;
      CopyBytes(pool.bytes, pool.free, name, namelen);
      pool.free := pool.free + namelen + 1;
      pool.nbStrings := pool.nbStrings + 1;
      mem := mem[ret := name[..namelen]];
      forall p | p in mem
        ensures Stored(p, mem[p], pools)
      {
        if p != ret {
          assert old(Stored(p, mem[p], pools));
          assert p.pool != pool ==> p.pool.bytes != pool.bytes;
        }
      }
    }
  }

  /** memcpy of the name to a[start], then a zero. */
  method CopyBytes(a: array<byte>, start: nat, name: seq<byte>, n: nat)
    requires n <= |name| && start + n < a.Length
    modifies a
    ensures forall i :: 0 <= i < n ==> a[start + i] == name[i]
    ensures a[start + n] == 0
    ensures forall i :: 0 <= i < a.Length && !(start <= i <= start + n) ==> a[i] == old(a[i])
  {
    for i := 0 to n
      invariant forall k :: 0 <= k < i ==> a[start + k] == name[k]
      invariant forall k :: 0 <= k < a.Length && !(start <= k < start + i) ==> a[k] == old(a[k])
    {
      a[start + i] := name[i];
    }
    a[start + n] := 0;
  }
}
