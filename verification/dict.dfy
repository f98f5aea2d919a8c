/** The interning dictionary of dict.c, alone or on top of a parent that is only read. */
module Dictionary {
  import opened Basics
  import opened CStrings
  import opened DictHash
  import opened DictPool
  import opened DictTable
  import opened DictGrow

  const MAX_HASH_LEN := 3
  const MAX_DICT_HASH := 8 * 2048
  const INT_MAX := 0x7fff_ffff

  /** No string is held at two places. */
  ghost predicate NoDuplicates(mem: map<Ptr, seq<byte>>) {
    forall p, q :: p in mem && q in mem && mem[p] == mem[q] ==> p == q
  }

  /** Every string added has its entry, under the key a table of `size` buckets uses for it. */
  ghost predicate Keyed(home: Homes, mem: map<Ptr, seq<byte>>, size: nat, seed: bv32) {
    && home.Keys == mem.Keys
    && forall p :: p in home ==> home[p].len == |mem[p]| && home[p].okey == Key(size, mem[p], seed)
  }

  ghost predicate Absent(mem: map<Ptr, seq<byte>>, w: seq<byte>) {
    forall p :: p in mem ==> mem[p] != w
  }

  ghost predicate HeldAt(mem: map<Ptr, seq<byte>>, p: Ptr, w: seq<byte>) {
    p in mem && mem[p] == w
  }

  /** `p` is what a dictionary over a parent knows the string as, the dictionary first. */
  ghost predicate Located(mem: map<Ptr, seq<byte>>, parent: map<Ptr, seq<byte>>, p: Ptr, w: seq<byte>) {
    HeldAt(mem, p, w) || (Absent(mem, w) && HeldAt(parent, p, w))
  }

  ghost predicate Known(mem: map<Ptr, seq<byte>>, parent: map<Ptr, seq<byte>>, w: seq<byte>) {
    !Absent(mem, w) || !Absent(parent, w)
  }

  lemma LocatedIsKnown(mem: map<Ptr, seq<byte>>, parent: map<Ptr, seq<byte>>, p: Ptr, w: seq<byte>)
    requires Located(mem, parent, p, w)
    ensures Known(mem, parent, w)
  {
  }

  /** What looking up `w` does: too long a name is refused, a known one is found, an unknown one is added unless the
      pools are full. */
  ghost predicate Outcome(mem: map<Ptr, seq<byte>>, parent: map<Ptr, seq<byte>>, tooLong: bool, full: bool,
                          w: seq<byte>, ret: Ptr, mem': map<Ptr, seq<byte>>)
  {
    if tooLong then ret == Null && mem' == mem
    else if Known(mem, parent, w) then ret != Null && Located(mem, parent, ret, w) && mem' == mem
    else if full then ret == Null && mem' == mem
    else ret != Null && ret !in mem && mem' == mem[ret := w]
  }

  /** The table sizes a dictionary goes through */
  predicate Reachable(size: nat) {
    size == MIN_DICT_SIZE || size == 768 || size == 4608
  }

  lemma KeyedAbsent(home: Homes, mem: map<Ptr, seq<byte>>, size: nat, seed: bv32, w: seq<byte>)
    requires Keyed(home, mem, size, seed)
    requires forall p :: p in home && home[p].okey == Key(size, w, seed) ==> mem[p] != w
    ensures Absent(mem, w)
  {
  }

  lemma Rekeyed(home: Homes, home': Homes, mem: map<Ptr, seq<byte>>, size: nat, size': nat, seed: bv32)
    requires Keyed(home, mem, size, seed) && (size == MIN_DICT_SIZE || size' != MIN_DICT_SIZE)
    requires Moved(home', {}, home, size != MIN_DICT_SIZE, size', mem, seed)
    ensures Keyed(home', mem, size', seed)
  {
  }

  lemma EmptyKeyed(seed: bv32)
    ensures Keyed(map[], map[], MIN_DICT_SIZE, seed) && NoDuplicates(map[])
  {
  }

  lemma KeyedMore(home: Homes, mem: map<Ptr, seq<byte>>, size: nat, seed: bv32, p: Ptr, w: seq<byte>, e: Entry)
    requires Keyed(home, mem, size, seed) && p !in mem
    ensures Keyed(home[p := Slot(e, |w|, Key(size, w, seed))], mem[p := w], size, seed)
  {
    hide Key;
  }

  lemma SameNames(home: Homes, mem: map<Ptr, seq<byte>>, size: nat, seed: bv32)
    requires Keyed(home, mem, size, seed)
    ensures home.Keys == mem.Keys
  {
  }

  lemma NoDuplicatesMore(mem: map<Ptr, seq<byte>>, p: Ptr, w: seq<byte>)
    requires NoDuplicates(mem) && Absent(mem, w) && p !in mem
    ensures NoDuplicates(mem[p := w]) && |mem[p := w]| == |mem| + 1
  {
    assert mem[p := w].Keys == mem.Keys + {p};
  }

  /** The memory `name` may be passed with length `len`, a negative length asking for strlen. An empty name must have
      its terminating zero, see DictHash.FastKeyReadsTheNameExactlyWhen. */
  predicate Readable(name: seq<byte>, len: int) {
    name != [] && if len < 0 then 0 in name else len <= |name| && (len == 0 ==> name[0] == 0)
  }

  ghost function Word(name: seq<byte>, len: int): seq<byte>
    requires Readable(name, len)
  {
    if len < 0 then CString(name) else name[..len]
  }

  method Length(name: seq<byte>, len: int) returns (l: nat)
    requires Readable(name, len)
    ensures l <= |name| && name[..l] == Word(name, len) && (l == 0 ==> name[0] == 0)
  {
    if len < 0 {
      l := StrLen(name);
    } else {
      l := len;
    }
  }

  class Dict {
    var table: Table         // `dict` and `size`
    var nbElems: nat
    const strings: Strings   // `strings` and `limit`
    const subdict: Dict?
    const seed: bv32

    ghost var Repr: set<object>

    /** The table and the strings are apart from each other. */
    ghost predicate Owned()
      reads this, Repr
    {
      && this in Repr && table in Repr && table in table.Repr && strings in Repr && strings in strings.Repr
      && table.Repr <= Repr && strings.Repr <= Repr
      && this !in table.Repr && this !in strings.Repr && table.Repr !! strings.Repr
      && table.Valid() && strings.Valid()
    }

    /** Everything but the size of the table */
    ghost predicate Sound()
      reads this, Repr
    {
      && Owned()
      && Keyed(table.home, strings.mem, table.dict.Length, seed)
      && NoDuplicates(strings.mem) && nbElems == |strings.mem|
    }

    ghost predicate Valid()
      reads this, Repr
    {
      Sound() && Reachable(table.dict.Length)
    }

    /** A dictionary and its parent, which only shares the seed */
    ghost predicate ValidPair()
      reads this, Repr, subdict, if subdict != null then subdict.Repr else {}
    {
      && Valid()
      && (subdict != null ==> subdict.Valid() && subdict.Repr !! Repr && subdict.seed == seed)
    }

    /** xmlDictCreate and xmlDictCreateSub; the random seed of a dictionary of its own is a parameter. */
    constructor (sub: Dict?, seed: bv32, limit: nat)
      requires sub != null ==> sub.Valid()
      ensures ValidPair() && fresh(Repr) && strings.mem == map[] && subdict == sub
      ensures this.seed == (if sub == null then seed else sub.seed) && strings.limit == limit && table.dict.Length == 128
    {
      hide Structure, Key, Table.Valid, Strings.Valid, Keyed, NoDuplicates;
      EmptyKeyed(if sub == null then seed else sub.seed);
      var t := new Table(MIN_DICT_SIZE);
      ghost var former := t.Repr;
      var s := new Strings(limit);
      assert former !! s.Repr && t.Repr == former;
      assert t in t.Repr && s in s.Repr;
      table, strings, nbElems := t, s, 0;
      subdict := sub;
      this.seed := if sub == null then seed else sub.seed;
      Repr := {this, t, s} + t.Repr + s.Repr;
      new;
      assert fresh(t.Repr) && fresh(s.Repr);
    }

    /** xmlDictGrow: the strings, their pointers and their number stay, every entry is under the key of the new size. */
    method Grow(size: nat) returns (ok: bool)
      requires Sound() && (table.dict.Length == MIN_DICT_SIZE || size != MIN_DICT_SIZE)
      modifies this, table.Repr
      ensures Sound() && fresh(Repr - old(Repr)) && nbElems == old(nbElems) && strings.mem == old(strings.mem)
      ensures ok <==> 8 <= size <= 16_384
      ensures table.dict.Length == if ok then size else old(table.dict.Length)
    {
      hide Structure, Key, Table.Valid, Strings.Valid, NoDuplicates, Keyed;
      if size < 8 {
        return false;
      }
      if size > MAX_DICT_HASH {
        return false;
      }
      var t := Regrow(size);
      table := t;
      Repr := Repr + {t} + t.Repr;
      return true;
    }

    /** The table of the new size, which takes over the entries of the old one */
    method Regrow(size: nat) returns (t: Table)
      requires Sound() && size > 0 && (table.dict.Length == MIN_DICT_SIZE || size != MIN_DICT_SIZE)
      modifies table.Repr
      ensures t.Valid() && t in t.Repr && t.dict.Length == size && fresh(t.Repr - old(table.Repr))
      ensures Keyed(t.home, strings.mem, size, seed)
    {
      hide Structure, Key, Table.Valid, Strings.Valid, Moved, NoDuplicates;
      var keepKeys := table.dict.Length != MIN_DICT_SIZE;
      ghost var former, size0 := table.home, table.dict.Length;
      t := Rehash(table, size, strings, keepKeys, seed);
      Rekeyed(former, t.home, strings.mem, size0, size, seed);
    }

    /** The second half of a search: the bucket of the parent, under the key the parent uses. */
    method FindInParent(name: seq<byte>, l: nat, okey: nat) returns (found: Ptr, nbi: nat)
      requires ValidPair() && subdict != null && l <= |name| && name != [] && (l == 0 ==> name[0] == 0)
      requires okey == Key(table.dict.Length, name[..l], seed)
      ensures if found != Null then HeldAt(subdict.strings.mem, found, name[..l])
              else Absent(subdict.strings.mem, name[..l])
                   && nbi == subdict.table.Steps(Key(subdict.table.dict.Length, name[..l], seed))
    {
      hide Structure, Table.Valid, Strings.Valid, NoDuplicates, FastKey, BigKey;
      var skey := okey;
      if (table.dict.Length == MIN_DICT_SIZE && subdict.table.dict.Length != MIN_DICT_SIZE) ||
         (table.dict.Length != MIN_DICT_SIZE && subdict.table.dict.Length == MIN_DICT_SIZE) {
        skey := ComputeKey(subdict.table.dict.Length, name, l, seed);
      }
      assert skey == Key(subdict.table.dict.Length, name[..l], seed);
      var insert;
      found, insert, nbi := subdict.table.Find(subdict.strings, name, l, skey);
      if found == Null {
        KeyedAbsent(subdict.table.home, subdict.strings.mem, subdict.table.dict.Length, seed, name[..l]);
      }
    }

    ghost predicate TooLong(w: seq<byte>)
      reads strings
    {
      (strings.limit > 0 && |w| >= strings.limit) || |w| > INT_MAX / 2
    }

    /** What the parent holds */
    ghost function ParentMem(): map<Ptr, seq<byte>>
      reads this, subdict, if subdict != null then {subdict.strings} else {}
    {
      if subdict != null then subdict.strings.mem else map[]
    }

    /** No pool has room for `n` bytes and a zero, and the limit forbids another one. */
    ghost predicate PoolsFull(n: nat)
      reads strings, strings.pools
    {
      strings.limit > 0 && Sizes(strings.pools) > strings.limit && strings.Full(n)
    }

    /** The links a search for an unknown name follows, here and in the parent */
    ghost function Steps(w: seq<byte>): int
      requires |table.chains| > 0 && (subdict != null ==> |subdict.table.chains| > 0)
      reads this, table, subdict, if subdict != null then {subdict.table} else {}
    {
      table.Steps(Key(table.dict.Length, w, seed))
      + if subdict != null then subdict.table.Steps(Key(subdict.table.dict.Length, w, seed)) else 0
    }

    /** The own bucket first, then the parent's. */
    method Search(name: seq<byte>, l: nat, okey: nat) returns (found: Ptr, insert: Entry?, nbi: nat)
      requires ValidPair() && l <= |name| && name != [] && (l == 0 ==> name[0] == 0)
      requires okey == Key(table.dict.Length, name[..l], seed)
      ensures found != Null ==> Located(strings.mem, ParentMem(), found, name[..l])
      ensures found == Null ==> !Known(strings.mem, ParentMem(), name[..l])
      ensures found == Null ==> table.InsertionPoint(insert, okey) && nbi == Steps(name[..l])
    {
      hide Structure, Table.Valid, Strings.Valid, NoDuplicates, Key;
      found, insert, nbi := table.Find(strings, name, l, okey);
      if found == Null {
        KeyedAbsent(table.home, strings.mem, table.dict.Length, seed, name[..l]);
        if subdict != null {
          var steps;
          found, steps := FindInParent(name, l, okey);
          nbi := nbi + steps;
        }
      }
    }

    /** A new string gets its bytes in the pool and its entry at the insertion point. */
    method Add(name: seq<byte>, l: nat, okey: nat, insert: Entry?) returns (ret: Ptr)
      requires Sound() && l <= |name| && table.InsertionPoint(insert, okey)
      requires okey == Key(table.dict.Length, name[..l], seed) && Absent(strings.mem, name[..l])
      modifies Repr
      ensures Sound() && fresh(Repr - old(Repr)) && table.dict.Length == old(table.dict.Length)
      ensures strings.limit == old(strings.limit)
      ensures ret == Null <==> old(PoolsFull(l))
      ensures ret == Null ==> strings.mem == old(strings.mem)
      ensures ret != Null ==> ret !in old(strings.mem) && strings.mem == old(strings.mem)[ret := name[..l]]
    {
      hide Structure, Key, Table.Valid, Strings.Valid, Keyed, NoDuplicates, Absent, Sizes;
      ghost var mem, w := strings.mem, name[..l];
      table.HeadsOwned();
      ret := strings.AddString(name, l);
      Repr := Repr + strings.Repr;
      if ret == Null {
        return;
      }
      Enter(ret, l, okey, insert, mem, w);
    }

    method Enter(ret: Ptr, l: nat, okey: nat, insert: Entry?, ghost mem: map<Ptr, seq<byte>>, ghost w: seq<byte>)
      requires Owned() && Keyed(table.home, mem, table.dict.Length, seed) && NoDuplicates(mem) && nbElems == |mem|
      requires strings.mem == mem[ret := w] && ret !in mem && Absent(mem, w) && |w| == l
      requires table.InsertionPoint(insert, okey) && okey == Key(table.dict.Length, w, seed)
      modifies this, table.Repr
      ensures Sound() && fresh(Repr - old(Repr)) && table == old(table) && table.dict.Length == old(table.dict.Length)
    {
      hide Structure, Key, Table.Valid, Strings.Valid, NoDuplicates, Keyed;
      ghost var home := table.home;
      assert ret !in home by {
        SameNames(home, mem, table.dict.Length, seed);
      }
      table.NewEntry(insert, ret, l, okey);
      Repr := Repr + table.Repr;
      KeyedMore(home, mem, table.dict.Length, seed, ret, w, table.home[ret].entry);
      NoDuplicatesMore(mem, ret, w);
      nbElems := nbElems + 1;
    }

    /** xmlDictLookup: the one pointer of a string, here or in the parent; a string known to neither is added here. */
    method Lookup(name: seq<byte>, len: int) returns (ret: Ptr)
      requires ValidPair() && Readable(name, len)
      modifies Repr
      ensures ValidPair() && fresh(Repr - old(Repr))
      ensures Outcome(old(strings.mem), ParentMem(), TooLong(Word(name, len)),
                      old(PoolsFull(|Word(name, len)|)), Word(name, len), ret, strings.mem)
      ensures TooLong(Word(name, len)) <==>
        |Word(name, len)| > 0x3fff_ffff || (strings.limit > 0 && |Word(name, len)| >= strings.limit)
      ensures strings.mem == old(strings.mem) ==> table.dict.Length == old(table.dict.Length)
      ensures strings.mem != old(strings.mem) ==>
        table.dict.Length == if old(Steps(Word(name, len))) > 3 && old(table.dict.Length) <= 2730
                             then 6 * old(table.dict.Length) else old(table.dict.Length)
      ensures ParentMem() == old(ParentMem()) && strings.limit == old(strings.limit)
    {
      hide Structure, Key, Table.Valid, Strings.Valid, NoDuplicates, Keyed, Located, Absent, Dict.PoolsFull, Dict.Steps;
      var l := Length(name, len);
      if (strings.limit > 0 && l >= strings.limit) || l > INT_MAX / 2 {
        return Null;
      }
      var okey := ComputeKey(table.dict.Length, name, l, seed);
      var insert, nbi;
      ret, insert, nbi := Search(name, l, okey);
      if ret != Null {
        LocatedIsKnown(strings.mem, ParentMem(), ret, Word(name, len));
        return;
      }
      ret := AddAndGrow(name, l, okey, insert, nbi);
    }

    /** The second half of a lookup, for a string that is not known */
    method AddAndGrow(name: seq<byte>, l: nat, okey: nat, insert: Entry?, nbi: nat) returns (ret: Ptr)
      requires Valid() && l <= |name| && table.InsertionPoint(insert, okey)
      requires okey == Key(table.dict.Length, name[..l], seed) && Absent(strings.mem, name[..l])
      modifies Repr
      ensures Valid() && fresh(Repr - old(Repr)) && strings.limit == old(strings.limit)
      ensures ret == Null <==> old(PoolsFull(l))
      ensures ret == Null ==> strings.mem == old(strings.mem) && table.dict.Length == old(table.dict.Length)
      ensures ret != Null ==> ret !in old(strings.mem) && strings.mem == old(strings.mem)[ret := name[..l]]
      ensures ret != Null ==>
        table.dict.Length == if nbi > 3 && old(table.dict.Length) <= 2730 then 6 * old(table.dict.Length)
                             else old(table.dict.Length)
    {
      hide Structure, Key, Table.Valid, Strings.Valid, NoDuplicates, Keyed, Absent, Dict.PoolsFull;
      ret := Add(name, l, okey, insert);
      if ret == Null {
        return;
      }
      var ok := GrowIfCrowded(nbi);
      if !ok {
        return Null;
      }
    }

    /** The table grows when a walk along its chains was long; it is never too large for that. */
    method GrowIfCrowded(nbi: nat) returns (ok: bool)
      requires Valid()
      modifies this, table.Repr
      ensures Valid() && fresh(Repr - old(Repr)) && ok
      ensures strings.mem == old(strings.mem) && strings.limit == old(strings.limit)
      ensures table.dict.Length == if nbi > 3 && old(table.dict.Length) <= 2730 then 6 * old(table.dict.Length)
                                   else old(table.dict.Length)
    {
      hide Structure, Key, Table.Valid, Strings.Valid, NoDuplicates, Keyed;
      ok := true;
      if nbi > MAX_HASH_LEN && table.dict.Length <= MAX_DICT_HASH / 2 / MAX_HASH_LEN {
        ok := Grow(MAX_HASH_LEN * 2 * table.dict.Length);
      }
    }

    /** xmlDictExists: what Lookup would find, without adding anything. */
    method Exists(name: seq<byte>, len: int) returns (found: Ptr)
      requires ValidPair() && Readable(name, len)
      ensures found != Null <==> !TooLong(Word(name, len)) && Known(strings.mem, ParentMem(), Word(name, len))
      ensures found != Null ==> Located(strings.mem, ParentMem(), found, Word(name, len))
      ensures TooLong(Word(name, len)) <==>
        |Word(name, len)| > 0x3fff_ffff || (strings.limit > 0 && |Word(name, len)| >= strings.limit)
    {
      hide Structure, Key, Table.Valid, Strings.Valid, NoDuplicates, Keyed, Located, Absent;
      var l := Length(name, len);
      if (strings.limit > 0 && l >= strings.limit) || l > INT_MAX / 2 {
        return Null;
      }
      var okey := ComputeKey(table.dict.Length, name, l, seed);
      var insert, nbi;
      found, insert, nbi := Search(name, l, okey);
      if found != Null {
        LocatedIsKnown(strings.mem, ParentMem(), found, Word(name, len));
      }
    }

    /** The bytes of a string, and a zero behind them, are where its pointer points. */
    lemma BytesBehind(p: Ptr, w: seq<byte>)
      requires ValidPair() && Located(strings.mem, ParentMem(), p, w)
      ensures p.At? && p.off + |w| < p.pool.bytes.Length
      ensures p.pool.bytes[p.off..p.off + |w|] == w && p.pool.bytes[p.off + |w|] == 0
    {
      hide Structure, Key, Table.Valid, NoDuplicates, Keyed;
      if HeldAt(strings.mem, p, w) {
        assert Stored(p, w, strings.pools);
      } else {
        assert Stored(p, w, subdict.strings.pools);
      }
    }

    /** No string is held twice, and no pointer belongs to both the dictionary and its parent. */
    lemma PointersApart()
      requires ValidPair()
      ensures NoDuplicates(strings.mem) && NoDuplicates(ParentMem())
      ensures strings.mem.Keys !! ParentMem().Keys
    {
      hide Structure, Key, Table.Valid, Keyed;
      forall p | p in strings.mem
        ensures p.At? && p.pool in Repr
      {
        assert Stored(p, strings.mem[p], strings.pools);
      }
      forall p | p in ParentMem()
        ensures p.At? && p.pool in subdict.Repr
      {
        assert Stored(p, subdict.strings.mem[p], subdict.strings.pools);
      }
    }

    /** xmlDictSize */
    method Size() returns (n: nat)
      requires ValidPair()
      ensures n == |strings.mem| + |ParentMem()|
    {
      hide Structure, Key, Table.Valid, Strings.Valid, NoDuplicates, Keyed;
      n := nbElems;
      if subdict != null {
        n := n + subdict.nbElems;
      }
    }
  }

  // ---- whole runs ----

  /** Two answers are the same pointer exactly when the strings were the same. */
  ghost predicate Canonical(names: seq<seq<byte>>, rets: seq<Ptr>) {
    && |names| == |rets|
    && forall i, j :: 0 <= i < |rets| && 0 <= j < |rets| && rets[i] != Null && rets[j] != Null ==>
         (rets[i] == rets[j] <==> names[i] == names[j])
  }

  /** Every answer still points at its string. */
  ghost predicate Current(names: seq<seq<byte>>, rets: seq<Ptr>, mem: map<Ptr, seq<byte>>, parent: map<Ptr, seq<byte>>)
  {
    && |names| == |rets|
    && forall i :: 0 <= i < |rets| && rets[i] != Null ==> Located(mem, parent, rets[i], names[i])
  }

  /** A string has one pointer and a pointer has one string, across the dictionary and its parent. */
  lemma LocatedUnique(mem: map<Ptr, seq<byte>>, parent: map<Ptr, seq<byte>>, p: Ptr, v: seq<byte>, q: Ptr, w: seq<byte>)
    requires NoDuplicates(mem) && NoDuplicates(parent) && mem.Keys !! parent.Keys
    requires Located(mem, parent, p, v) && Located(mem, parent, q, w)
    ensures p == q <==> v == w
  {
  }

  lemma CurrentIsCanonical(names: seq<seq<byte>>, rets: seq<Ptr>, mem: map<Ptr, seq<byte>>, parent: map<Ptr, seq<byte>>)
    requires NoDuplicates(mem) && NoDuplicates(parent) && mem.Keys !! parent.Keys
    requires Current(names, rets, mem, parent)
    ensures Canonical(names, rets)
  {
    hide NoDuplicates, Located;
    forall i, j | 0 <= i < |rets| && 0 <= j < |rets| && rets[i] != Null && rets[j] != Null
      ensures rets[i] == rets[j] <==> names[i] == names[j]
    {
      LocatedUnique(mem, parent, rets[i], names[i], rets[j], names[j]);
    }
  }

  /** A lookup never disturbs an earlier answer. */
  lemma OutcomeKeeps(mem: map<Ptr, seq<byte>>, parent: map<Ptr, seq<byte>>, tooLong: bool, full: bool,
                     w: seq<byte>, ret: Ptr, mem': map<Ptr, seq<byte>>, p: Ptr, v: seq<byte>)
    requires Outcome(mem, parent, tooLong, full, w, ret, mem')
    ensures Located(mem, parent, p, v) ==> Located(mem', parent, p, v)
    ensures ret != Null ==> Located(mem', parent, ret, w)
  {
  }

  /** Only too long a name and full pools leave a lookup without an answer. */
  lemma OutcomeGives(mem: map<Ptr, seq<byte>>, parent: map<Ptr, seq<byte>>, tooLong: bool, full: bool,
                     w: seq<byte>, ret: Ptr, mem': map<Ptr, seq<byte>>)
    requires Outcome(mem, parent, tooLong, full, w, ret, mem')
    ensures ret == Null <==> tooLong || (full && forall p :: !Located(mem, parent, p, w))
  {
    if !tooLong && Known(mem, parent, w) {
      assert Located(mem, parent, ret, w);
    } else if full && !tooLong {
      forall p ensures !Located(mem, parent, p, w) {
      }
    }
  }

  lemma OutcomeExtends(names: seq<seq<byte>>, rets: seq<Ptr>, mem: map<Ptr, seq<byte>>, parent: map<Ptr, seq<byte>>,
                       tooLong: bool, full: bool, w: seq<byte>, ret: Ptr, mem': map<Ptr, seq<byte>>)
    requires Current(names, rets, mem, parent) && Outcome(mem, parent, tooLong, full, w, ret, mem')
    ensures Current(names + [w], rets + [ret], mem', parent)
  {
    hide Located, Outcome;
    forall i | 0 <= i < |rets| && rets[i] != Null
      ensures Located(mem', parent, rets[i], names[i])
    {
      OutcomeKeeps(mem, parent, tooLong, full, w, ret, mem', rets[i], names[i]);
    }
    OutcomeKeeps(mem, parent, tooLong, full, w, ret, mem', ret, w);
  }

  /** Any run of lookups, however often the table grows and new pools are taken on the way. */
  method LookupAll(d: Dict, names: seq<seq<byte>>) returns (rets: seq<Ptr>)
    requires d.ValidPair() && forall i :: 0 <= i < |names| ==> Readable(names[i], |names[i]|)
    modifies d.Repr
    ensures d.ValidPair() && fresh(d.Repr - old(d.Repr)) && d.ParentMem() == old(d.ParentMem())
    ensures Canonical(names, rets) && Current(names, rets, d.strings.mem, d.ParentMem())
    ensures old(d.strings.limit) == 0 && (forall i :: 0 <= i < |names| ==> |names[i]| <= 0x3fff_ffff) ==> Null !in rets
  {
    hide Structure, Key, Table.Valid, Strings.Valid, NoDuplicates, Keyed, Current, Canonical, Located, Outcome;
    rets := [];
    NothingYet(d.strings.mem, d.ParentMem());
    for i := 0 to |names|
      invariant d.ValidPair() && fresh(d.Repr - old(d.Repr)) && d.ParentMem() == old(d.ParentMem())
      invariant Current(names[..i], rets, d.strings.mem, d.ParentMem()) && d.strings.limit == old(d.strings.limit)
      invariant d.strings.limit == 0 && (forall j :: 0 <= j < |names| ==> |names[j]| <= 0x3fff_ffff) ==> Null !in rets
    {
      ghost var mem, full := d.strings.mem, d.PoolsFull(|names[i]|);
      var ret := d.Lookup(names[i], |names[i]|);
      assert Word(names[i], |names[i]|) == names[i];
      OutcomeGives(mem, d.ParentMem(), d.TooLong(names[i]), full, names[i], ret, d.strings.mem);
      OutcomeExtends(names[..i], rets, mem, d.ParentMem(), d.TooLong(names[i]), full, names[i], ret, d.strings.mem);
      rets := rets + [ret];
      assert names[..i + 1] == names[..i] + [names[i]];
    }
    assert names[..|names|] == names;
    d.PointersApart();
    CurrentIsCanonical(names, rets, d.strings.mem, d.ParentMem());
  }

  /** xmlDictExists followed by xmlDictLookup: a pointer it gives is the one looked up, and nothing changes; where it gives
      none, lookup refuses the name or adds it under a pointer of its own. */
  method ExistsThenLookup(d: Dict, name: seq<byte>, len: int) returns (found: Ptr, ret: Ptr)
    requires d.ValidPair() && Readable(name, len)
    modifies d.Repr
    ensures d.ValidPair() && fresh(d.Repr - old(d.Repr)) && d.ParentMem() == old(d.ParentMem())
    ensures found != Null ==> ret == found && d.strings.mem == old(d.strings.mem)
    ensures found == Null ==>
      if ret == Null then d.strings.mem == old(d.strings.mem)
      else ret !in old(d.strings.mem) && d.strings.mem == old(d.strings.mem)[ret := Word(name, len)]
  {
    hide Structure, Key, Table.Valid, Strings.Valid, Keyed, NoDuplicates, Located, Known;
    ghost var mem, parent, w := d.strings.mem, d.ParentMem(), Word(name, len);
    found := d.Exists(name, len);
    d.PointersApart();
    ret := d.Lookup(name, len);
    if found != Null {
      LocatedUnique(mem, parent, found, w, ret, w);
    }
  }

  lemma NothingYet(mem: map<Ptr, seq<byte>>, parent: map<Ptr, seq<byte>>)
    ensures Current([], [], mem, parent)
  {
  }
}
