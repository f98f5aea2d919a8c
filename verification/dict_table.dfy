/** The hash table of a dictionary: an array of bucket heads held inline, and overflow chains behind them. */
module DictTable {
  import opened Basics
  import opened DictPool

  /** What an entry holds: struct _xmlDictEntry as a value. */
  datatype Cell = Cell(next: Entry?, name: Ptr, len: nat, valid: bool, okey: nat)

  /** `slot` tells the head of bucket k (slot k) from an overflow node (slot -1). */
  class Entry {
    var next: Entry?
    var name: Ptr
    var len: nat
    var valid: bool
    var okey: nat
    ghost const slot: int

    ghost function Value(): Cell
      reads this
    {
      Cell(next, name, len, valid, okey)
    }

    /** memset to zero */
    constructor (slot: int)
      ensures Value() == Cell(null, Null, 0, false, 0) && this.slot == slot
    {
      next, name, len, valid, okey := null, Null, 0, false, 0;
      this.slot := slot;
    }
  }

  type Cells = map<Entry, Cell>

  /** Where a name is kept, and what its entry says about it. */
  datatype Slot = Slot(entry: Entry, len: nat, okey: nat)

  type Homes = map<Ptr, Slot>

  ghost function With(cells: Cells, e: Entry, v: Cell): Cells {
    cells[e := v]
  }

  ghost function WithNext(cells: Cells, e: Entry, node: Entry?): Cells
    requires e in cells
  {
    cells[e := cells[e].(next := node)]
  }

  ghost function SlotOf(e: Entry, v: Cell): Slot {
    Slot(e, v.len, v.okey)
  }

  // ---- the shape of the table, over the values of its entries ----

  /** `c` is bucket `k`: its head, then its overflow nodes in order, all in use if there are any. */
  ghost predicate Chain(k: nat, c: seq<Entry>, cells: Cells) {
    && c != [] && c[0].slot == k && (forall x :: x in c ==> x in cells)
    && (forall i :: 1 <= i < |c| ==> c[i].slot == -1 && cells[c[i]].valid)
    && (|c| > 1 ==> cells[c[0]].valid)
    && (forall i {:trigger cells[c[i]]} :: 0 <= i < |c| ==> cells[c[i]].next == if i + 1 < |c| then c[i + 1] else null)
  }

  /** An entry in use in bucket `k` belongs there, and is the one entry of its name. */
  ghost predicate Belongs(k: nat, e: Entry, v: Cell, size: nat, home: Homes)
    requires size > 0
  {
    v.okey % size == k && v.name in home && home[v.name] == SlotOf(e, v)
  }

  ghost predicate Members(k: nat, c: seq<Entry>, size: nat, cells: Cells, home: Homes)
    requires size > 0
  {
    && (forall x :: x in c ==> x in cells && (x.slot == k || (x.slot == -1 && cells[x].valid)))
    && (forall x :: x in c && cells[x].valid ==> Belongs(k, x, cells[x], size, home))
  }

  ghost predicate Bucket(k: nat, c: seq<Entry>, size: nat, cells: Cells, home: Homes)
    requires size > 0
  {
    Chain(k, c, cells) && Members(k, c, size, cells, home)
  }

  ghost predicate Placed(p: Ptr, s: Slot, chains: seq<seq<Entry>>, cells: Cells)
    requires chains != []
  {
    s.entry in cells && cells[s.entry].valid && cells[s.entry].name == p && s.entry in chains[s.okey % |chains|]
  }

  ghost predicate Structure(heads: seq<Entry>, chains: seq<seq<Entry>>, cells: Cells, home: Homes) {
    && |heads| == |chains| > 0
    && (forall k :: 0 <= k < |chains| ==> Bucket(k, chains[k], |chains|, cells, home) && heads[k] == chains[k][0])
    && (forall p :: p in home ==> Placed(p, home[p], chains, cells))
  }

  /** An entry of one bucket is in no other. */
  lemma Apart(heads: seq<Entry>, chains: seq<seq<Entry>>, cells: Cells, home: Homes, k: nat, e: Entry, m: nat)
    requires Structure(heads, chains, cells, home)
    requires k < |chains| && m < |chains| && k != m && e in chains[k]
    ensures e !in chains[m]
  {
    assert Bucket(k, chains[k], |chains|, cells, home) && Bucket(m, chains[m], |chains|, cells, home);
    assert cells[e].valid ==> Belongs(k, e, cells[e], |chains|, home);
  }

  /** `cells'` differs from `cells` only in entries of bucket `key` and in entries that were not there. */
  ghost predicate ChangedIn(c: seq<Entry>, cells: Cells, cells': Cells) {
    && (forall x :: x in cells ==> x in cells')
    && (forall x :: x in cells && x !in c ==> cells'[x] == cells[x])
    && (forall x :: x in cells && cells[x].valid ==> SameRecord(cells[x], cells'[x]))
  }

  ghost predicate SameRecord(v: Cell, w: Cell) {
    v.(next := w.next) == w
  }

  /** `c` is the former chain `c0` of bucket `key` with the new entry `e` put in, or put in use. */
  ghost predicate Extends(key: nat, c0: seq<Entry>, c: seq<Entry>, e: Entry, cells: Cells) {
    && e in c && (e.slot == key || e.slot == -1)
    && (forall x :: x in c && x != e ==> x in c0)
    && (forall x :: x in c0 && x in cells && cells[x].valid ==> x in c)
  }

  /** One bucket may change as long as its own chain stays in order and gains one entry under a new name. */
  lemma Restructured(heads: seq<Entry>, chains: seq<seq<Entry>>, cells: Cells, home: Homes,
                     key: nat, c: seq<Entry>, e: Entry, cells': Cells)
    requires Structure(heads, chains, cells, home) && key < |chains|
    requires ChangedIn(chains[key], cells, cells') && Chain(key, c, cells') && c[0] == heads[key]
    requires Extends(key, chains[key], c, e, cells)
    requires cells'[e].valid && cells'[e].name !in home && cells'[e].okey % |chains| == key
    requires forall x :: x in chains[key] && x != e ==> cells[x].valid
    ensures Structure(heads, chains[key := c], cells', home[cells'[e].name := SlotOf(e, cells'[e])])
  {
    hide Belongs, Chain, Placed;
    ChainMembers(key, c, cells');
    var home' := home[cells'[e].name := SlotOf(e, cells'[e])];
    assert Bucket(key, chains[key], |chains|, cells, home);
    forall k | 0 <= k < |chains| && k != key
      ensures Bucket(k, chains[k], |chains|, cells', home') && chains[k] != [] && heads[k] == chains[k][0]
    {
      OtherBucket(heads, chains, cells, home, key, k, cells', home');
    }
    MembersExtended(key, chains[key], c, e, |chains|, cells, home, cells');
    PlacedKept(chains, cells, home, key, c, cells');
    PlacedNew(chains[key := c], cells', e);
    hide Members, Extends, ChangedIn;
  }

  lemma ChainMembers(k: nat, c: seq<Entry>, cells: Cells)
    requires Chain(k, c, cells)
    ensures c != [] && forall x :: x in c ==> x in cells
  {
  }

  lemma PlacedNew(chains: seq<seq<Entry>>, cells: Cells, e: Entry)
    requires chains != [] && e in cells && cells[e].valid && e in chains[cells[e].okey % |chains|]
    ensures Placed(cells[e].name, SlotOf(e, cells[e]), chains, cells)
  {
  }

  lemma OtherBucket(heads: seq<Entry>, chains: seq<seq<Entry>>, cells: Cells, home: Homes, key: nat, k: nat,
                    cells': Cells, home': Homes)
    requires Structure(heads, chains, cells, home) && key < |chains| && k < |chains| && k != key
    requires ChangedIn(chains[key], cells, cells') && forall p :: p in home ==> p in home' && home'[p] == home[p]
    ensures Bucket(k, chains[k], |chains|, cells', home') && chains[k] != [] && heads[k] == chains[k][0]
  {
    hide Belongs, Placed;
    assert Bucket(k, chains[k], |chains|, cells, home);
    forall x | x in chains[k]
      ensures x in cells && x !in chains[key]
    {
      Apart(heads, chains, cells, home, k, x, key);
    }
    hide Members, Chain;
    BucketKept(k, chains[k], |chains|, cells, home, cells', home');
  }

  lemma PlacedKept(chains: seq<seq<Entry>>, cells: Cells, home: Homes, key: nat, c: seq<Entry>, cells': Cells)
    requires key < |chains| && forall p :: p in home ==> Placed(p, home[p], chains, cells)
    requires ChangedIn(chains[key], cells, cells')
    requires forall x :: x in chains[key] && x in cells && cells[x].valid ==> x in c
    ensures forall p :: p in home ==> Placed(p, home[p], chains[key := c], cells')
  {
    forall p | p in home
      ensures Placed(p, home[p], chains[key := c], cells')
    {
      assert Placed(p, home[p], chains, cells);
    }
  }

  lemma BucketKept(k: nat, c: seq<Entry>, size: nat, cells: Cells, home: Homes, cells': Cells, home': Homes)
    requires size > 0 && Bucket(k, c, size, cells, home)
    requires forall x :: x in c ==> x in cells' && cells'[x] == cells[x]
    requires forall p :: p in home ==> p in home' && home'[p] == home[p]
    ensures Bucket(k, c, size, cells', home')
  {
    forall i | 0 <= i < |c|
      ensures cells'[c[i]] == cells[c[i]]
    {
    }
    forall x | x in c && cells'[x].valid
      ensures Belongs(k, x, cells'[x], size, home')
    {
      assert Belongs(k, x, cells[x], size, home);
    }
  }

  lemma MembersExtended(k: nat, c0: seq<Entry>, c: seq<Entry>, e: Entry, size: nat, cells: Cells, home: Homes,
                        cells': Cells)
    requires size > 0 && Members(k, c0, size, cells, home) && Extends(k, c0, c, e, cells)
    requires forall x :: x in c ==> x in cells'
    requires forall x :: x in c0 && x != e ==> cells[x].valid && x in cells' && SameRecord(cells[x], cells'[x])
    requires cells'[e].valid && cells'[e].name !in home && cells'[e].okey % size == k
    ensures Members(k, c, size, cells', home[cells'[e].name := SlotOf(e, cells'[e])])
  {
    forall x | x in c
      ensures x.slot == k || (x.slot == -1 && cells'[x].valid)
      ensures cells'[x].valid ==> Belongs(k, x, cells'[x], size, home[cells'[e].name := SlotOf(e, cells'[e])])
    {
      if x != e {
        assert x in c0 && Belongs(k, x, cells[x], size, home);
      }
    }
  }

  /** A node behind the head of a chain whose head is in use. */
  lemma ChainBehindHead(k: nat, c: seq<Entry>, cells: Cells, node: Entry, cells': Cells)
    requires Chain(k, c, cells) && cells[c[0]].valid
    requires node !in c && node.slot == -1 && node in cells' && cells'[node].valid
    requires cells'[node].next == cells[c[0]].next
    requires forall x :: x in c ==> x in cells'
    requires cells'[c[0]] == cells[c[0]].(next := node)
    requires forall i :: 1 <= i < |c| ==> cells'[c[i]] == cells[c[i]]
    ensures Chain(k, [c[0], node] + c[1..], cells')
  {
    var r := [c[0], node] + c[1..];
    assert r[0] == c[0] && r[1] == node && forall i :: 2 <= i < |r| ==> r[i] == c[i - 1];
    assert |c| > 1 ==> cells[c[0]].next == c[1];
    BehindHead(c, node);
    forall i | 0 <= i < |r|
      ensures cells'[r[i]].next == if i + 1 < |r| then r[i + 1] else null
    {
      if i >= 2 {
        assert r[i] == c[i - 1];
        assert cells[c[i - 1]].next == if i < |c| then c[i] else null;
      }
    }
    forall i | 1 <= i < |r|
      ensures r[i].slot == -1 && cells'[r[i]].valid
    {
      assert i >= 2 ==> r[i] == c[i - 1];
    }
  }

  /** A node at the end of a chain whose head is in use. */
  lemma ChainLast(k: nat, c: seq<Entry>, cells: Cells, node: Entry, cells': Cells)
    requires Chain(k, c, cells) && cells[c[0]].valid
    requires node !in c && node.slot == -1 && node in cells' && cells'[node].valid && cells'[node].next == null
    requires forall x :: x in c ==> x in cells'
    requires cells'[c[|c| - 1]] == cells[c[|c| - 1]].(next := node)
    requires forall i :: 0 <= i < |c| - 1 ==> cells'[c[i]] == cells[c[i]]
    ensures Chain(k, c + [node], cells')
  {
    var r := c + [node];
    forall i | 0 <= i < |r|
      ensures cells'[r[i]].next == if i + 1 < |r| then r[i + 1] else null
    {
      if i < |c| - 1 {
        assert cells[c[i]].next == c[i + 1];
      }
    }
    forall i | 1 <= i < |r|
      ensures r[i].slot == -1 && cells'[r[i]].valid
    {
    }
  }

  /** Only the last entry of a chain has no successor, so no other entry of the chain is the last. */
  lemma LastOnce(k: nat, c: seq<Entry>, cells: Cells)
    requires Chain(k, c, cells)
    ensures forall i :: 0 <= i < |c| - 1 ==> c[i] != Last(c)
  {
    forall i | 0 <= i < |c| - 1
      ensures c[i] != Last(c)
    {
      assert cells[c[i]].next == c[i + 1] && cells[c[|c| - 1]].next == null;
    }
  }

  ghost function Last<T>(c: seq<T>): T
    requires c != []
  {
    c[|c| - 1]
  }

  ghost predicate Blank(e: Entry, k: nat, cells: Cells) {
    e.slot == k && e in cells && cells[e] == Cell(null, Null, 0, false, 0)
  }

  lemma BlankTable(heads: seq<Entry>, chains: seq<seq<Entry>>, cells: Cells)
    requires |heads| == |chains| > 0
    requires forall k :: 0 <= k < |chains| ==> chains[k] == [heads[k]] && Blank(heads[k], k, cells)
    ensures Structure(heads, chains, cells, map[])
  {
    forall k | 0 <= k < |chains|
      ensures Bucket(k, chains[k], |chains|, cells, map[])
    {
      assert Blank(heads[k], k, cells);
    }
  }

  lemma HeadInCells(heads: seq<Entry>, chains: seq<seq<Entry>>, cells: Cells, home: Homes, key: nat)
    requires Structure(heads, chains, cells, home) && key < |chains|
    ensures chains[key] != [] && heads[key] == chains[key][0]
    ensures heads[key] in cells && Last(chains[key]) in cells
    ensures !cells[heads[key]].valid ==> chains[key] == [heads[key]]
  {
    assert Bucket(key, chains[key], |chains|, cells, home);
    assert Last(chains[key]) in chains[key];
  }

  lemma HeadFilled(heads: seq<Entry>, chains: seq<seq<Entry>>, cells: Cells, home: Homes, key: nat, v: Cell)
    requires Structure(heads, chains, cells, home) && key < |chains|
    requires !cells[heads[key]].valid && v.valid && v.next == null && v.name !in home && v.okey % |chains| == key
    ensures Structure(heads, chains[key := [heads[key]]], With(cells, heads[key], v),
                      home[v.name := SlotOf(heads[key], v)])
  {
    var e := heads[key];
    assert Bucket(key, chains[key], |chains|, cells, home) && chains[key] == [e];
    Restructured(heads, chains, cells, home, key, [e], e, With(cells, e, v));
  }

  lemma PutBehindHead(heads: seq<Entry>, chains: seq<seq<Entry>>, cells: Cells, home: Homes,
                      key: nat, node: Entry, v: Cell)
    requires Structure(heads, chains, cells, home) && key < |chains| && cells[heads[key]].valid
    requires node !in cells && node.slot == -1 && v.valid && v.name !in home && v.okey % |chains| == key
    ensures var h := heads[key];
      Structure(heads, chains[key := [h, node] + chains[key][1..]],
                With(WithNext(cells, h, node), node, v.(next := cells[h].next)),
                home[v.name := SlotOf(node, v)])
  {
    hide Belongs, Placed, Members;
    var c, h := chains[key], heads[key];
    assert Bucket(key, c, |chains|, cells, home) && h == c[0];
    hide Structure;
    ChainFacts(key, c, cells);
    HeadRelinked(key, c, cells, node, v);
    HeadExtended(key, c, cells, node, v);
    hide Chain, Extends, ChangedIn;
    Restructured(heads, chains, cells, home, key, [h, node] + c[1..], node, Relinked(c, cells, node, v));
  }

  ghost function Relinked(c: seq<Entry>, cells: Cells, node: Entry, v: Cell): Cells
    requires c != [] && c[0] in cells
  {
    With(WithNext(cells, c[0], node), node, v.(next := cells[c[0]].next))
  }

  lemma HeadRelinked(k: nat, c: seq<Entry>, cells: Cells, node: Entry, v: Cell)
    requires Chain(k, c, cells) && cells[c[0]].valid && node !in cells && node.slot == -1 && v.valid
    ensures Chain(k, [c[0], node] + c[1..], Relinked(c, cells, node, v))
  {
    var cells' := Relinked(c, cells, node, v);
    ChainFacts(k, c, cells);
    forall i | 1 <= i < |c| ensures cells'[c[i]] == cells[c[i]] {
      assert c[i] != c[0] && c[i] in c;
    }
    assert node !in c;
    ChainBehindHead(k, c, cells, node, cells');
    hide Chain;
  }

  lemma HeadExtended(k: nat, c: seq<Entry>, cells: Cells, node: Entry, v: Cell)
    requires c != [] && c[0] in cells && node !in cells && node.slot == -1 && forall x :: x in c ==> x in cells
    ensures Extends(k, c, [c[0], node] + c[1..], node, cells) && ChangedIn(c, cells, Relinked(c, cells, node, v))
  {
    BehindHead(c, node);
  }

  lemma ChainFacts(k: nat, c: seq<Entry>, cells: Cells)
    requires Chain(k, c, cells) && cells[c[0]].valid
    ensures c[0].slot == k && forall x :: x in c ==> x in cells && cells[x].valid
    ensures forall i :: 1 <= i < |c| ==> c[i] != c[0]
  {
    forall x | x in c ensures x in cells && cells[x].valid {
      var i :| 0 <= i < |c| && c[i] == x;
    }
  }

  lemma BehindHead<T>(c: seq<T>, x: T)
    requires c != []
    ensures forall y :: y in [c[0], x] + c[1..] <==> y == x || y in c
  {
    assert c == [c[0]] + c[1..];
  }

  lemma PutLast(heads: seq<Entry>, chains: seq<seq<Entry>>, cells: Cells, home: Homes,
                key: nat, node: Entry, v: Cell)
    requires Structure(heads, chains, cells, home) && key < |chains| && cells[heads[key]].valid
    requires node !in cells && node.slot == -1 && v.valid && v.next == null
    requires v.name !in home && v.okey % |chains| == key
    ensures var l := Last(chains[key]);
      Structure(heads, chains[key := chains[key] + [node]],
                With(WithNext(cells, l, node), node, v), home[v.name := SlotOf(node, v)])
  {
    hide Belongs, Placed;
    var c := chains[key];
    assert Bucket(key, c, |chains|, cells, home);
    var l := Last(c);
    var cells' := With(WithNext(cells, l, node), node, v);
    LastOnce(key, c, cells);
    ChainLast(key, c, cells, node, cells');
    Restructured(heads, chains, cells, home, key, c + [node], node, cells');
  }

  // ---- searching ----

  /** The memory holds every name of the table, at the length its entry says. */
  ghost predicate InMemory(home: Homes, mem: map<Ptr, seq<byte>>) {
    forall p :: p in home ==> p in mem && home[p].len == |mem[p]|
  }

  ghost predicate Match(v: Cell, okey: nat, w: seq<byte>, mem: map<Ptr, seq<byte>>) {
    v.okey == okey && v.name in mem && mem[v.name] == w
  }

  /** A bucket without a match means that no name of that key is the string. */
  lemma NoMatch(heads: seq<Entry>, chains: seq<seq<Entry>>, cells: Cells, home: Homes, mem: map<Ptr, seq<byte>>,
                okey: nat, w: seq<byte>)
    requires Structure(heads, chains, cells, home) && InMemory(home, mem)
    requires forall x :: x in chains[okey % |chains|] && x in cells && cells[x].valid ==> !Match(cells[x], okey, w, mem)
    ensures forall p :: p in home && home[p].okey == okey ==> mem[p] != w
  {
    forall p | p in home && home[p].okey == okey
      ensures mem[p] != w
    {
      assert Placed(p, home[p], chains, cells);
      var k := okey % |chains|;
      assert Bucket(k, chains[k], |chains|, cells, home);
      assert Belongs(k, home[p].entry, cells[home[p].entry], |chains|, home);
    }
  }

  /** An entry in use that is the one entry of its name */
  ghost predicate Usable(e: Entry, cells: Cells, home: Homes) {
    && e in cells && cells[e].valid
    && cells[e].name in home && home[cells[e].name] == SlotOf(e, cells[e])
  }

  /** Where a walk along `c` goes from position `i` */
  ghost predicate Step(c: seq<Entry>, i: int, cells: Cells, home: Homes)
    requires 0 <= i < |c|
  {
    Usable(c[i], cells, home) && cells[c[i]].next == if i + 1 < |c| then c[i + 1] else null
  }

  lemma InUse(heads: seq<Entry>, chains: seq<seq<Entry>>, cells: Cells, home: Homes, k: nat)
    requires Structure(heads, chains, cells, home) && k < |chains| && heads[k] in cells && cells[heads[k]].valid
    ensures chains[k] != [] && chains[k][0] == heads[k]
    ensures forall i :: 0 <= i < |chains[k]| ==> Step(chains[k], i, cells, home)
  {
    hide Chain, Members;
    assert Bucket(k, chains[k], |chains|, cells, home);
    HeadInCells(heads, chains, cells, home, k);
    forall i | 0 <= i < |chains[k]|
      ensures Step(chains[k], i, cells, home)
    {
      StepOf(k, chains[k], i, |chains|, cells, home);
    }
  }

  lemma StepOf(k: nat, c: seq<Entry>, i: nat, size: nat, cells: Cells, home: Homes)
    requires size > 0 && Bucket(k, c, size, cells, home) && i < |c| && cells[c[0]].valid
    ensures Step(c, i, cells, home)
  {
    assert c[i] in c && cells[c[i]].valid;
    assert Belongs(k, c[i], cells[c[i]], size, home);
  }

  // ---- the table itself ----

  class Table {
    const dict: array<Entry>

    ghost var chains: seq<seq<Entry>>   // the entries of each bucket, head first
    ghost var cells: Cells              // the values of all entries
    ghost var home: Homes               // the entry of each name
    ghost var Repr: set<object>

    ghost predicate Tied()
      reads this, Repr
    {
      && this in Repr && dict in Repr
      && forall e :: e in cells ==> e in Repr && e.Value() == cells[e]
    }

    ghost predicate Valid()
      reads this, Repr
    {
      Tied() && |chains| == dict.Length > 0 && Structure(dict[..], chains, cells, home)
    }

    /** An empty table of `size` buckets */
    constructor (size: nat)
      requires size > 0
      ensures Valid() && fresh(Repr) && this in Repr && home == map[] && dict.Length == size
    {
      var blank := new Entry(0);
      dict := new Entry[size](_ => blank);
      new;
      chains, cells, home, Repr := [], map[], map[], {this, dict};
      for i := 0 to size
        invariant fresh(Repr) && home == map[] && Tied() && |chains| == i
        invariant forall k :: 0 <= k < i ==> chains[k] == [dict[k]] && Blank(dict[k], k, cells)
      {
        var e := new Entry(i);
        dict[i] := e;
        chains := chains + [[e]];
        Adopt(e);
      }
      BlankTable(dict[..], chains, cells);
    }

    lemma HeadsOwned()
      requires Valid()
      ensures dict in Repr && forall e :: e in dict[..] ==> e in Repr
    {
      forall k | 0 <= k < dict.Length
        ensures dict[k] in Repr
      {
        HeadInCells(dict[..], chains, cells, home, k);
      }
    }

    /** Where a search for `okey` ends: the unused head of its bucket (null), or the last entry of its chain */
    ghost predicate InsertionPoint(insert: Entry?, okey: nat)
      reads this, dict, set e | e in dict[..]
    {
      |chains| == dict.Length > 0 && var key := okey % dict.Length;
      if dict[key].valid then chains[key] != [] && insert == Last(chains[key]) else insert == null
    }

    /** The links a walk through the bucket of `okey` follows */
    ghost function Steps(okey: nat): int
      requires |chains| > 0
      reads this
    {
      |chains[okey % |chains|]| - 1
    }

    /** The bucket of `okey` is walked to its end, or to the entry of the string. */
    method Find(strings: Strings, name: seq<byte>, l: nat, okey: nat)
      returns (found: Ptr, insert: Entry?, nbi: nat)
      requires Valid() && strings.Valid() && InMemory(home, strings.mem) && l <= |name|
      ensures found != Null ==> found in home && strings.mem[found] == name[..l]
      ensures found == Null ==> forall p :: p in home && home[p].okey == okey ==> strings.mem[p] != name[..l]
      ensures found == Null ==> InsertionPoint(insert, okey) && nbi == Steps(okey)
    {
      hide Structure;
      var key := okey % dict.Length;
      ghost var c := chains[key];
      HeadInCells(dict[..], chains, cells, home, key);
      insert, nbi := null, 0;
      if dict[key].valid {
        InUse(dict[..], chains, cells, home, key);
        insert := dict[key];
        ghost var j := 0;
        assert Step(c, 0, cells, home);
        while insert.next != null
          invariant 0 <= j < |c| && nbi == j && insert == c[j] && Step(c, j, cells, home)
          invariant forall i :: 0 <= i < j ==> c[i] in cells
          invariant forall i :: 0 <= i < j ==> !Match(cells[c[i]], okey, name[..l], strings.mem)
          decreases |c| - j
        {
          found := Check(strings, insert, name, l, okey);
          if found != Null {
            return;
          }
          nbi, insert, j := nbi + 1, insert.next, j + 1;
          assert Step(c, j, cells, home);
        }
        found := Check(strings, insert, name, l, okey);
        if found != Null {
          return;
        }
      }
      assert forall x :: x in c && x in cells && cells[x].valid ==> !Match(cells[x], okey, name[..l], strings.mem);
      NoMatch(dict[..], chains, cells, home, strings.mem, okey, name[..l]);
      return Null, insert, nbi;
    }

    /** The comparison made at each step of a walk */
    method Check(strings: Strings, e: Entry, name: seq<byte>, l: nat, okey: nat) returns (found: Ptr)
      requires Valid() && strings.Valid() && InMemory(home, strings.mem) && l <= |name|
      requires Usable(e, cells, home)
      ensures found != Null ==> found in home && strings.mem[found] == name[..l]
      ensures found == Null ==> !Match(cells[e], okey, name[..l], strings.mem)
    {
      hide Structure;
      if e.okey == okey && e.len == l {
        var same := strings.Same(e.name, name, l);
        if same {
          return e.name;
        }
      }
      return Null;
    }

    method SetNext(e: Entry, node: Entry?)
      requires Tied() && e in cells
      modifies e`next, this`cells
      ensures Tied() && cells == WithNext(old(cells), e, node)
    {
      e.next := node;
      cells := WithNext(cells, e, node);
    }

    ghost method Adopt(node: Entry)
      requires Tied() && node !in Repr
      modifies this`cells, this`Repr
      ensures Tied() && cells == With(old(cells), node, node.Value()) && Repr == old(Repr) + {node}
    {
      cells, Repr := With(cells, node, node.Value()), Repr + {node};
    }

    method SetCell(e: Entry, name: Ptr, len: nat, okey: nat)
      requires Tied() && e in cells
      modifies e, this`cells
      ensures Tied() && cells == With(old(cells), e, Cell(null, name, len, true, okey))
    {
      e.name, e.len, e.next, e.valid, e.okey := name, len, null, true, okey;
      cells := With(cells, e, Cell(null, name, len, true, okey));
    }

    /** An unused head takes the entry itself. */
    method FillHead(key: nat, name: Ptr, len: nat, okey: nat)
      requires Valid() && key < dict.Length && !dict[key].valid
      requires name !in home && okey % dict.Length == key
      modifies Repr
      ensures Valid() && Repr == old(Repr) && dict[..] == old(dict[..])
      ensures home == old(home)[name := Slot(dict[key], len, okey)]
    {
      hide Structure;
      var e := dict[key];
      HeadInCells(dict[..], chains, cells, home, key);
      HeadFilled(dict[..], chains, cells, home, key, Cell(null, name, len, true, okey));
      chains, home := chains[key := [e]], home[name := Slot(e, len, okey)];
      SetCell(e, name, len, okey);
    }

    /** A node goes right behind a head that is in use. */
    method LinkBehindHead(key: nat, node: Entry)
      requires Valid() && key < dict.Length && dict[key].valid
      requires node !in Repr && node.slot == -1 && node.valid && node.name !in home && node.okey % dict.Length == key
      modifies Repr, node`next
      ensures Valid() && Repr == old(Repr) + {node} && dict[..] == old(dict[..])
      ensures home == old(home)[node.name := Slot(node, node.len, node.okey)]
    {
      hide Structure;
      var head := dict[key];
      ghost var v := node.Value();
      HeadInCells(dict[..], chains, cells, home, key);
      PutBehindHead(dict[..], chains, cells, home, key, node, v);
      node.next := head.next;
      chains, home := chains[key := [head, node] + chains[key][1..]], home[v.name := SlotOf(node, v)];
      SetNext(head, node);
      Adopt(node);
    }

    /** A node goes to the end of a chain. */
    method LinkLast(key: nat, insert: Entry, node: Entry)
      requires Valid() && key < dict.Length && dict[key].valid && insert == Last(chains[key])
      requires node !in Repr && node.slot == -1 && node.valid && node.name !in home && node.okey % dict.Length == key
      requires node.next == null
      modifies Repr
      ensures Valid() && Repr == old(Repr) + {node} && dict[..] == old(dict[..])
      ensures home == old(home)[node.name := Slot(node, node.len, node.okey)]
    {
      hide Structure;
      ghost var v := node.Value();
      HeadInCells(dict[..], chains, cells, home, key);
      PutLast(dict[..], chains, cells, home, key, node, v);
      chains, home := chains[key := chains[key] + [node]], home[v.name := SlotOf(node, v)];
      SetNext(insert, node);
      Adopt(node);
    }

    /** A new entry at the insertion point: in the unused head, or in a node at the end of the chain */
    method NewEntry(insert: Entry?, name: Ptr, len: nat, okey: nat)
      requires Valid() && InsertionPoint(insert, okey) && name !in home
      modifies Repr
      ensures Valid() && this in Repr && fresh(Repr - old(Repr)) && dict[..] == old(dict[..])
      ensures name in home && home == old(home)[name := home[name]]
      ensures home[name].len == len && home[name].okey == okey
    {
      hide Structure;
      var key := okey % dict.Length;
      if insert == null {
        FillHead(key, name, len, okey);
      } else {
        var entry := new Entry(-1);
        entry.name, entry.len, entry.okey, entry.valid := name, len, okey, true;
        LinkLast(key, insert, entry);
      }
    }
  }
}
