/** Moving every entry of a table into a bigger one: heads are copied first, then overflow nodes are relinked. */
module DictGrow {
  import opened Basics
  import opened DictHash
  import opened DictPool
  import opened DictTable

  /** The entry of `p` is an overflow node of the old table, not an inline head. */
  ghost predicate IsNode(p: Ptr, home: Homes)
    requires p in home
  {
    home[p].entry.slot == -1
  }

  ghost function BucketOf(p: Ptr, home: Homes, size: nat): nat
    requires p in home && size > 0
  {
    home[p].okey % size
  }

  /** Old entries that still have to be moved, and all old heads, are as they were and outside the new table. */
  ghost predicate Untouched(cells: Cells, todo: set<Ptr>, repr: set<object>)
    reads cells.Keys
  {
    forall x :: x in cells && (x.slot != -1 || cells[x].name in todo) ==> x !in repr && x.Value() == cells[x]
  }

  /** The key an entry gets in the new table. */
  ghost function NewKey(p: Ptr, home: Homes, keep: bool, size: nat, mem: map<Ptr, seq<byte>>, seed: bv32): nat
    requires p in home && p in mem
  {
    if keep then home[p].okey else Key(size, mem[p], seed)
  }

  /** The names moved so far are in the new table, with their lengths and their new keys. */
  ghost predicate Moved(done: Homes, todo: set<Ptr>, home: Homes, keep: bool, size: nat,
                        mem: map<Ptr, seq<byte>>, seed: bv32)
  {
    && done.Keys == home.Keys - todo
    && forall p :: p in done && p in mem ==>
         done[p].len == home[p].len && done[p].okey == NewKey(p, home, keep, size, mem, seed)
  }

  /** The work left before head `i` is looked at */
  ghost function HeadsFrom(i: nat, home: Homes, size: nat): set<Ptr>
    requires size > 0
  {
    set p | p in home && (IsNode(p, home) || BucketOf(p, home, size) >= i)
  }

  /** The node of `p` is still to come when position `j` of chain `i` is looked at. */
  ghost predicate Waiting(p: Ptr, i: nat, j: nat, home: Homes, chains: seq<seq<Entry>>)
    requires p in home && chains != []
  {
    var k := BucketOf(p, home, |chains|);
    IsNode(p, home) && (k > i || (k == i && k < |chains| && home[p].entry in Rest(chains[k], j)))
  }

  ghost function Rest<T>(c: seq<T>, j: nat): seq<T> {
    if j <= |c| then c[j..] else []
  }

  ghost function NodesFrom(i: nat, j: nat, home: Homes, chains: seq<seq<Entry>>): set<Ptr>
    requires chains != []
  {
    set p | p in home && Waiting(p, i, j, home, chains)
  }

  lemma HeadStep(heads: seq<Entry>, chains: seq<seq<Entry>>, cells: Cells, home: Homes, i: nat)
    requires Structure(heads, chains, cells, home) && i < |chains|
    ensures heads[i] in cells && heads[i].slot == i
    ensures !cells[heads[i]].valid ==> HeadsFrom(i, home, |chains|) == HeadsFrom(i + 1, home, |chains|)
    ensures cells[heads[i]].valid ==>
      var p := cells[heads[i]].name;
      p in home && home[p] == SlotOf(heads[i], cells[heads[i]]) && p in HeadsFrom(i, home, |chains|) &&
      HeadsFrom(i + 1, home, |chains|) == HeadsFrom(i, home, |chains|) - {p}
  {
    HeadInCells(heads, chains, cells, home, i);
    var c, h := chains[i], heads[i];
    assert Bucket(i, c, |chains|, cells, home);
    forall p | p in home && BucketOf(p, home, |chains|) == i && !IsNode(p, home)
      ensures home[p].entry == h && cells[h].valid && cells[h].name == p
    {
      HeadOf(heads, chains, cells, home, i, p);
    }
    if cells[h].valid {
      assert Belongs(i, h, cells[h], |chains|, home);
      HeadsDrop(home, |chains|, i, cells[h].name);
    } else {
      HeadsSame(home, |chains|, i);
    }
    hide Structure, Bucket, HeadsFrom;
  }

  /** The names that belong in head `i`: one, or none */
  lemma HeadsDrop(home: Homes, size: nat, i: nat, p: Ptr)
    requires size > 0 && p in home && BucketOf(p, home, size) == i && !IsNode(p, home)
    requires forall q :: q in home && BucketOf(q, home, size) == i && !IsNode(q, home) ==> q == p
    ensures p in HeadsFrom(i, home, size) && HeadsFrom(i + 1, home, size) == HeadsFrom(i, home, size) - {p}
  {
    hide BucketOf, IsNode;
  }

  lemma HeadsSame(home: Homes, size: nat, i: nat)
    requires size > 0
    requires forall q :: q in home && BucketOf(q, home, size) == i ==> IsNode(q, home)
    ensures HeadsFrom(i + 1, home, size) == HeadsFrom(i, home, size)
  {
    hide BucketOf, IsNode;
  }

  lemma HeadOf(heads: seq<Entry>, chains: seq<seq<Entry>>, cells: Cells, home: Homes, i: nat, p: Ptr)
    requires Structure(heads, chains, cells, home) && i < |chains|
    requires p in home && BucketOf(p, home, |chains|) == i && !IsNode(p, home)
    ensures home[p].entry == heads[i] && heads[i] in cells && cells[heads[i]].valid && cells[heads[i]].name == p
  {
    HeadInCells(heads, chains, cells, home, i);
    var c := chains[i];
    assert Bucket(i, c, |chains|, cells, home);
    assert Placed(p, home[p], chains, cells);
    var k :| 0 <= k < |c| && c[k] == home[p].entry;
  }

  lemma Successor(k: nat, c: seq<Entry>, cells: Cells, i: nat)
    requires Chain(k, c, cells) && i < |c|
    ensures c[i] in cells && cells[c[i]].next == if i + 1 < |c| then c[i + 1] else null
  {
  }

  /** A chain that ends does not come back to an entry. */
  lemma {:induction false} NoReturn(k: nat, c: seq<Entry>, cells: Cells, a: nat, b: nat)
    requires Chain(k, c, cells) && a < b < |c|
    ensures c[a] != c[b]
    decreases |c| - b
  {
    hide Chain;
    Successor(k, c, cells, a);
    Successor(k, c, cells, b);
    if b + 1 < |c| {
      NoReturn(k, c, cells, a + 1, b + 1);
    }
  }

  lemma NodeStep(heads: seq<Entry>, chains: seq<seq<Entry>>, cells: Cells, home: Homes, i: nat, j: nat)
    requires Structure(heads, chains, cells, home) && i < |chains| && 1 <= j < |chains[i]|
    ensures NodeAt(chains[i], j, cells, home)
    ensures cells[chains[i][j]].name in NodesFrom(i, j, home, chains)
    ensures NodesFrom(i, j + 1, home, chains) == NodesFrom(i, j, home, chains) - {cells[chains[i][j]].name}
  {
    hide Chain, Members, Placed;
    var c := chains[i];
    assert Bucket(i, c, |chains|, cells, home);
    BucketNode(i, c, j, |chains|, cells, home);
    NotAgain(i, c, cells, j);
    NodeNames(chains, cells, home, i, j, c[j]);
  }

  /** The node at position `j` of a chain, with its successor and its name */
  ghost predicate NodeAt(c: seq<Entry>, j: nat, cells: Cells, home: Homes)
  {
    && j < |c| && c[j] in cells && c[j].slot == -1 && cells[c[j]].valid
    && cells[c[j]].next == (if j + 1 < |c| then c[j + 1] else null)
    && cells[c[j]].name in home && home[cells[c[j]].name] == SlotOf(c[j], cells[c[j]])
  }

  lemma BucketNode(k: nat, c: seq<Entry>, j: nat, size: nat, cells: Cells, home: Homes)
    requires size > 0 && Bucket(k, c, size, cells, home) && 1 <= j < |c|
    ensures NodeAt(c, j, cells, home) && cells[c[j]].okey % size == k
  {
    assert c[j] in c && cells[c[j]].next == if j + 1 < |c| then c[j + 1] else null;
    assert Belongs(k, c[j], cells[c[j]], size, home);
  }

  lemma NotAgain(k: nat, c: seq<Entry>, cells: Cells, j: nat)
    requires Chain(k, c, cells) && j < |c|
    ensures c[j] !in c[j + 1..]
  {
    hide Chain;
    if c[j] in c[j + 1..] {
      var b :| 0 <= b < |c[j + 1..]| && c[j + 1..][b] == c[j];
      NoReturn(k, c, cells, j, j + 1 + b);
    }
  }

  lemma NodeNames(chains: seq<seq<Entry>>, cells: Cells, home: Homes, i: nat, j: nat, x: Entry)
    requires i < |chains| && j < |chains[i]| && x == chains[i][j] && x !in chains[i][j + 1..] && x.slot == -1
    requires x in cells && cells[x].name in home && home[cells[x].name] == SlotOf(x, cells[x])
    requires cells[x].okey % |chains| == i
    requires forall p :: p in home ==> Placed(p, home[p], chains, cells)
    ensures cells[x].name in NodesFrom(i, j, home, chains)
    ensures NodesFrom(i, j + 1, home, chains) == NodesFrom(i, j, home, chains) - {cells[x].name}
  {
    var c := chains[i];
    assert Rest(c, j) == [x] + Rest(c, j + 1);
    forall p | p in home
      ensures home[p].entry == x ==> p == cells[x].name
      ensures Waiting(p, i, j + 1, home, chains) <==> Waiting(p, i, j, home, chains) && p != cells[x].name
    {
      assert Placed(p, home[p], chains, cells);
    }
  }

  /** When one chain is done, the next one is looked at from the node behind its head. */
  lemma ChainDone(heads: seq<Entry>, chains: seq<seq<Entry>>, cells: Cells, home: Homes, i: nat)
    requires Structure(heads, chains, cells, home) && i < |chains|
    ensures NodesFrom(i, |chains[i]|, home, chains) == NodesFrom(i + 1, 1, home, chains)
  {
    hide Structure;
    forall p | p in home
      ensures Waiting(p, i, |chains[i]|, home, chains) <==> Waiting(p, i + 1, 1, home, chains)
    {
      NodeBehindHead(heads, chains, cells, home, p);
    }
  }

  lemma NodeBehindHead(heads: seq<Entry>, chains: seq<seq<Entry>>, cells: Cells, home: Homes, p: Ptr)
    requires Structure(heads, chains, cells, home) && p in home
    ensures BucketOf(p, home, |chains|) < |chains|
    ensures IsNode(p, home) ==> home[p].entry in Rest(chains[BucketOf(p, home, |chains|)], 1)
  {
    var k := BucketOf(p, home, |chains|);
    var c := chains[k];
    assert Placed(p, home[p], chains, cells);
    assert Bucket(k, c, |chains|, cells, home);
    assert c != [] && c[0].slot == k;
    hide Structure, Bucket, Placed;
    if IsNode(p, home) {
      InRest(c, home[p].entry);
    }
  }

  lemma InRest<T>(c: seq<T>, x: T)
    requires x in c && x != c[0]
    ensures x in Rest(c, 1)
  {
    assert c == [c[0]] + Rest(c, 1);
  }

  lemma NodesAtStart(heads: seq<Entry>, chains: seq<seq<Entry>>, cells: Cells, home: Homes)
    requires Structure(heads, chains, cells, home)
    ensures HeadsFrom(0, home, |chains|) == home.Keys
    ensures HeadsFrom(|chains|, home, |chains|) == NodesFrom(0, 1, home, chains)
    ensures NodesFrom(|chains|, 1, home, chains) == {}
  {
    assert chains != [];
    hide Structure;
    forall p | p in home
      ensures IsNode(p, home) ==> Waiting(p, 0, 1, home, chains)
      ensures BucketOf(p, home, |chains|) < |chains|
    {
      NodeBehindHead(heads, chains, cells, home, p);
    }
  }

  // ---- the two passes ----

  /** Copies the entry of an old head into the new table: into the head of its bucket, or into a node behind it. */
  method MoveHead(t: Table, e: Entry, okey: nat)
    requires t.Valid() && e !in t.Repr && e.name !in t.home
    modifies t.Repr
    ensures t.Valid() && fresh(t.Repr - old(t.Repr)) && t.dict[..] == old(t.dict[..])
    ensures e.name in t.home && t.home == old(t.home)[e.name := t.home[e.name]]
    ensures t.home[e.name].len == e.len && t.home[e.name].okey == okey
  {
    hide Structure;
    var key := okey % t.dict.Length;
    if !t.dict[key].valid {
      t.FillHead(key, e.name, e.len, okey);
    } else {
      var entry := new Entry(-1);
      entry.name, entry.len, entry.okey, entry.valid := e.name, e.len, okey, true;
      t.LinkBehindHead(key, entry);
    }
  }

  /** Relinks an old overflow node into the new table, unless it can give its entry to an unused head. */
  method MoveNode(t: Table, iter: Entry, okey: nat)
    requires t.Valid() && iter !in t.Repr && iter.name !in t.home && iter.valid && iter.slot == -1
    modifies t.Repr, iter
    ensures t.Valid() && t.Repr <= old(t.Repr) + {iter} && t.dict[..] == old(t.dict[..])
    ensures old(iter.name) in t.home && t.home == old(t.home)[old(iter.name) := t.home[old(iter.name)]]
    ensures t.home[old(iter.name)].len == old(iter.len) && t.home[old(iter.name)].okey == okey
  {
    hide Structure;
    var key := okey % t.dict.Length;
    if !t.dict[key].valid {
      t.FillHead(key, iter.name, iter.len, okey);
    } else {
      iter.okey := okey;
      t.LinkBehindHead(key, iter);
    }
  }

  /** What the old table was when the move began */
  datatype Former = Former(chains: seq<seq<Entry>>, cells: Cells, home: Homes)

  ghost predicate Settled(t: Table, strings: Strings, former: Former)
    reads t, t.Repr, strings, strings.Repr
  {
    && t.Valid() && strings.Valid() && t.Repr !! strings.Repr
    && InMemory(former.home, strings.mem)
    && forall x :: x in former.cells ==> x !in strings.Repr
  }

  /** Between two moves: the names in `todo` are still in their old entries, all others are in the new table. */
  ghost predicate Progress(dict: array<Entry>, t: Table, strings: Strings, keep: bool, seed: bv32,
                           former: Former, todo: set<Ptr>)
    reads dict, t, t.Repr, strings, strings.Repr, former.cells.Keys
  {
    && Settled(t, strings, former) && dict !in t.Repr
    && Structure(dict[..], former.chains, former.cells, former.home)
    && Untouched(former.cells, todo, t.Repr)
    && Moved(t.home, todo, former.home, keep, t.dict.Length, strings.mem, seed)
  }

  /** The key of an old entry in the new table */
  method RekeyEntry(e: Entry, size: nat, strings: Strings, keep: bool, seed: bv32, ghost home: Homes)
    returns (okey: nat)
    requires strings.Valid() && InMemory(home, strings.mem)
    requires e.name in home && home[e.name] == SlotOf(e, e.Value())
    ensures okey == NewKey(e.name, home, keep, size, strings.mem, seed)
  {
    if keep {
      okey := e.okey;
    } else {
      okey := strings.HashStored(e.name, e.len, size, seed);
    }
  }

  lemma OneMoreMoved(done: Homes, todo: set<Ptr>, home: Homes, keep: bool, size: nat, mem: map<Ptr, seq<byte>>,
                     seed: bv32, p: Ptr, s: Slot)
    requires Moved(done, todo, home, keep, size, mem, seed) && p in todo && p in home && p in mem
    requires s.len == home[p].len && s.okey == NewKey(p, home, keep, size, mem, seed)
    ensures Moved(done[p := s], todo - {p}, home, keep, size, mem, seed)
  {
  }

  method CopyHead(i: nat, dict: array<Entry>, t: Table, strings: Strings, keep: bool, seed: bv32, ghost former: Former)
    requires i < dict.Length && |former.chains| == dict.Length
    requires Progress(dict, t, strings, keep, seed, former, HeadsFrom(i, former.home, |former.chains|))
    modifies t.Repr
    ensures Progress(dict, t, strings, keep, seed, former, HeadsFrom(i + 1, former.home, |former.chains|))
    ensures fresh(t.Repr - old(t.Repr)) && t.dict[..] == old(t.dict[..])
  {
    hide Structure, HeadsFrom, Key, Stored, BucketOf, IsNode;
    var e := dict[i];
    ghost var todo := HeadsFrom(i, former.home, |former.chains|);
    HeadStep(dict[..], former.chains, former.cells, former.home, i);
    assert e.Value() == former.cells[e];
    if e.valid {
      var okey := RekeyEntry(e, t.dict.Length, strings, keep, seed, former.home);
      assert e.name !in t.home;
      MoveHead(t, e, okey);
      OneMoreMoved(old(t.home), todo, former.home, keep, t.dict.Length, strings.mem, seed, e.name, t.home[e.name]);
    }
  }

  /** First pass: the entries held in the array itself. */
  method CopyHeads(dict: array<Entry>, t: Table, strings: Strings, keep: bool, seed: bv32, ghost former: Former)
    requires |former.chains| == dict.Length > 0
    requires Progress(dict, t, strings, keep, seed, former, HeadsFrom(0, former.home, |former.chains|))
    modifies t.Repr
    ensures Progress(dict, t, strings, keep, seed, former, HeadsFrom(dict.Length, former.home, |former.chains|))
    ensures fresh(t.Repr - old(t.Repr)) && t.dict[..] == old(t.dict[..])
  {
    hide Progress, HeadsFrom;
    var i := 0;
    while i < dict.Length
      invariant 0 <= i <= dict.Length
      invariant Progress(dict, t, strings, keep, seed, former, HeadsFrom(i, former.home, |former.chains|))
      invariant fresh(t.Repr - old(t.Repr)) && t.dict[..] == old(t.dict[..])
    {
      CopyHead(i, dict, t, strings, keep, seed, former);
      i := i + 1;
    }
  }

  method RelinkNode(i: nat, ghost j: nat, iter: Entry, dict: array<Entry>, t: Table, strings: Strings,
                    keep: bool, seed: bv32, ghost former: Former)
    returns (next: Entry?)
    requires i < |former.chains| && 1 <= j < |former.chains[i]| && iter == former.chains[i][j]
    requires Progress(dict, t, strings, keep, seed, former, NodesFrom(i, j, former.home, former.chains))
    modifies t.Repr, iter
    ensures Progress(dict, t, strings, keep, seed, former, NodesFrom(i, j + 1, former.home, former.chains))
    ensures next == if j + 1 < |former.chains[i]| then former.chains[i][j + 1] else null
    ensures iter in former.cells && t.Repr <= old(t.Repr) + {iter} && t.dict[..] == old(t.dict[..])
  {
    hide Structure, NodesFrom, Key, Stored, Waiting, BucketOf;
    ghost var todo := NodesFrom(i, j, former.home, former.chains);
    NodeStep(dict[..], former.chains, former.cells, former.home, i, j);
    assert iter.Value() == former.cells[iter];
    ghost var p := iter.name;
    next := iter.next;
    var okey := RekeyEntry(iter, t.dict.Length, strings, keep, seed, former.home);
    MoveNode(t, iter, okey);
    OneMoreMoved(old(t.home), todo, former.home, keep, t.dict.Length, strings.mem, seed, p, t.home[p]);
  }

  lemma HeadNext(heads: seq<Entry>, chains: seq<seq<Entry>>, cells: Cells, home: Homes, i: nat)
    requires Structure(heads, chains, cells, home) && i < |chains|
    ensures |chains[i]| >= 1 && heads[i] in cells && heads[i].slot == i
    ensures forall x :: x in chains[i] ==> x in cells
    ensures cells[heads[i]].next == if |chains[i]| > 1 then chains[i][1] else null
  {
    assert Bucket(i, chains[i], |chains|, cells, home);
    Successor(i, chains[i], cells, 0);
  }

  method RelinkChain(i: nat, dict: array<Entry>, t: Table, strings: Strings, keep: bool, seed: bv32,
                     ghost former: Former)
    requires i < dict.Length == |former.chains|
    requires Progress(dict, t, strings, keep, seed, former, NodesFrom(i, 1, former.home, former.chains))
    modifies t.Repr, former.cells.Keys
    ensures Progress(dict, t, strings, keep, seed, former, NodesFrom(i + 1, 1, former.home, former.chains))
    ensures t.Repr <= old(t.Repr) + former.cells.Keys && t.dict[..] == old(t.dict[..])
  {
    hide Structure, NodesFrom;
    HeadNext(dict[..], former.chains, former.cells, former.home, i);
    ChainDone(dict[..], former.chains, former.cells, former.home, i);
    assert dict[i].Value() == former.cells[dict[i]];
    var iter := dict[i].next;
    ghost var j := 1;
    hide Progress;
    ghost var c := former.chains[i];
    while iter != null
      invariant 1 <= j <= |c| && iter == if j < |c| then c[j] else null
      invariant Progress(dict, t, strings, keep, seed, former, NodesFrom(i, j, former.home, former.chains))
      invariant t.Repr <= old(t.Repr) + former.cells.Keys && t.dict[..] == old(t.dict[..])
      decreases |c| - j
    {
      iter := RelinkNode(i, j, iter, dict, t, strings, keep, seed, former);
      j := j + 1;
    }
  }

  /** Second pass: the overflow nodes. */
  method RelinkNodes(dict: array<Entry>, t: Table, strings: Strings, keep: bool, seed: bv32, ghost former: Former)
    requires |former.chains| == dict.Length > 0
    requires Progress(dict, t, strings, keep, seed, former, NodesFrom(0, 1, former.home, former.chains))
    modifies t.Repr, former.cells.Keys
    ensures Progress(dict, t, strings, keep, seed, former, NodesFrom(dict.Length, 1, former.home, former.chains))
    ensures t.Repr <= old(t.Repr) + former.cells.Keys && t.dict[..] == old(t.dict[..])
  {
    hide Progress, NodesFrom;
    var i := 0;
    while i < dict.Length
      invariant 0 <= i <= dict.Length
      invariant Progress(dict, t, strings, keep, seed, former, NodesFrom(i, 1, former.home, former.chains))
      invariant t.Repr <= old(t.Repr) + former.cells.Keys && t.dict[..] == old(t.dict[..])
    {
      RelinkChain(i, dict, t, strings, keep, seed, former);
      i := i + 1;
    }
  }

  /** Every entry of `old` goes into a new table of `size` buckets. */
  method Rehash(former: Table, size: nat, strings: Strings, keep: bool, seed: bv32) returns (t: Table)
    requires former.Valid() && strings.Valid() && InMemory(former.home, strings.mem) && size > 0
    requires former.Repr !! strings.Repr
    modifies former.Repr
    ensures t.Valid() && t in t.Repr && t.dict.Length == size && fresh(t.Repr - old(former.Repr))
    ensures Moved(t.home, {}, old(former.home), keep, size, strings.mem, seed)
  {
    hide Structure, NodesFrom, HeadsFrom;
    t := new Table(size);
    var dict := former.dict;
    ghost var was := Former(former.chains, former.cells, former.home);
    NodesAtStart(dict[..], was.chains, was.cells, was.home);
    assert Progress(dict, t, strings, keep, seed, was, was.home.Keys);
    CopyHeads(dict, t, strings, keep, seed, was);
    RelinkNodes(dict, t, strings, keep, seed, was);
  }
}
