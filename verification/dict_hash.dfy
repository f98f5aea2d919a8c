/** The two hash functions of dict.c and the rule that picks one from the table size. */
module DictHash {
  import opened Basics

  const MIN_DICT_SIZE := 128

  /** xmlDictComputeFastKey on the memory starting at the name; the first byte is read whatever the length. */
  function FastKey(mem: seq<byte>, len: nat): nat
    requires mem != [] && len <= |mem|
  {
    mem[0] as nat * 32 + (if len > 10 then mem[len - 1] else 0) + Sum(mem, if len > 10 then 10 else len)
  }

  /** mem[1] + ... + mem[n - 1], the fall-through switch. */
  function Sum(mem: seq<byte>, n: nat): nat
    requires n <= |mem|
  {
    if n <= 1 then 0 else mem[n - 1] + Sum(mem, n - 1)
  }

  function Mix(hash: bv32, b: byte): bv32 {
    var h := hash + b as bv32;
    var h := h + (h << 10);
    h ^ (h >> 6)
  }

  function MixAll(hash: bv32, s: seq<byte>): bv32 {
    if s == [] then hash else Mix(MixAll(hash, s[..|s| - 1]), s[|s| - 1])
  }

  function Finish(hash: bv32): bv32 {
    var h := hash + (hash << 3);
    var h := h ^ (h >> 11);
    h + (h << 15)
  }

  /** The key of a string of bytes as the one-at-a-time hash gives it, in 32-bit arithmetic. */
  function BigKey(s: seq<byte>, seed: bv32): nat {
    if s == [] then 0 else Finish(MixAll(seed, s)) as nat
  }

  /** The key a table of `size` buckets uses for the string `s`, held with a terminating zero. */
  function Key(size: nat, s: seq<byte>, seed: bv32): nat {
    if size == MIN_DICT_SIZE then FastKey(s + [0], |s|) else BigKey(s, seed)
  }

  /** xmlDictComputeBigKey */
  method ComputeBigKey(data: seq<byte>, namelen: nat, seed: bv32) returns (key: nat)
    requires namelen <= |data|
    ensures key == BigKey(data[..namelen], seed)
  {
    if namelen == 0 {
      return 0;
    }
    var hash := seed;
    for i := 0 to namelen
      invariant hash == MixAll(seed, data[..i])
    {
      assert data[..i + 1][..i] == data[..i];
      hash := Mix(hash, data[i]);
    }
    hash := Finish(hash);
    return hash as nat;
  }

  /** The fast key is a function of the first `len` bytes exactly when there is at least one. */
  lemma FastKeyReadsTheNameExactlyWhen(len: nat)
    ensures len >= 1 <==>
      forall a: seq<byte>, b: seq<byte> ::
        len <= |a| && len <= |b| && a != [] && b != [] && a[..len] == b[..len] ==> FastKey(a, len) == FastKey(b, len)
  {
    if len == 0 {
      var a: seq<byte>, b: seq<byte> := [97], [120];
      assert a[..0] == b[..0];
      assert FastKey(a, 0) == 97 * 32 && FastKey(b, 0) == 120 * 32;
    } else {
      forall a: seq<byte>, b: seq<byte> | len <= |a| && len <= |b| && a[..len] == b[..len]
        ensures FastKey(a, len) == FastKey(b, len)
      {
        SameBytesSameKey(a, b, len);
      }
    }
  }

  lemma SameBytesSameKey(a: seq<byte>, b: seq<byte>, len: nat)
    requires 1 <= len <= |a| && len <= |b| && a[..len] == b[..len]
    ensures FastKey(a, len) == FastKey(b, len)
  {
    assert forall i :: 0 <= i < len ==> a[i] == a[..len][i] == b[i];
    SameSum(a, b, if len > 10 then 10 else len);
  }

  lemma {:induction false} SameSum(a: seq<byte>, b: seq<byte>, n: nat)
    requires n <= |a| && n <= |b| && forall i :: 0 <= i < n ==> a[i] == b[i]
    ensures Sum(a, n) == Sum(b, n)
  {
    if n > 1 {
      SameSum(a, b, n - 1);
    }
  }

  /** The first byte counts 32 times, those up to the tenth and, of a longer name, the last count once. */
  lemma FastKeyIs(mem: seq<byte>, len: nat)
    requires mem != [] && len <= |mem|
    ensures len <= 1 ==> FastKey(mem, len) == 32 * (mem[0] as nat)
    ensures 2 <= len <= 10 ==> FastKey(mem, len) == FastKey(mem, len - 1) + mem[len - 1]
    ensures len > 10 ==> FastKey(mem, len) == FastKey(mem, 10) + mem[len - 1]
  {
  }

  lemma MixedAre(hash: bv32, s: seq<byte>, b: byte)
    ensures MixAll(hash, s + [b]) == Mix(MixAll(hash, s), b)
  {
    assert (s + [b])[..|s|] == s;
  }

  lemma MixVectors()
    ensures Mix(0, 97) == 0x1_8270 && Mix(0x1_8270, 98) == 0x614_f9f9
    ensures Mix(0x1234_5678, 120) == 0xe01e_56ab && Mix(0xe01e_56ab, 109) == 0x581f_5dc4 && Mix(0x581f_5dc4, 108) == 0xd6ce_7e48
  {
  }

  lemma FinishVectors()
    ensures Finish(0x1_8270) == 0xca2e_9442 && Finish(0x614_f9f9) == 0x45e6_1e58 && Finish(0xd6ce_7e48) == 0x79b6_d8c6
  {
  }

  /** The one-at-a-time hash of "a", of "ab", and of "xml" under another seed; the key of "a" in tables of 128 and 768 buckets */
  lemma BigKeyVectors(seed: bv32)
    ensures BigKey([97], 0) == 0xca2e_9442 && BigKey([97, 98], 0) == 0x45e6_1e58
    ensures BigKey([120, 109, 108], 0x1234_5678) == 0x79b6_d8c6 && BigKey([], seed) == 0
    ensures Key(128, [97], seed) == 32 * 97 && Key(768, [97], 0) == 0xca2e_9442
  {
    MixVectors();
    FinishVectors();
    hide Mix, Finish;
    MixedAre(0, [], 97);
    MixedAre(0, [97], 98);
    MixedAre(0x1234_5678, [], 120);
    MixedAre(0x1234_5678, [120], 109);
    MixedAre(0x1234_5678, [120, 109], 108);
    assert [] + [97] == [97] && [97] + [98] == [97, 98] && [] + [120] == [120];
    assert [120] + [109] == [120, 109] && [120, 109] + [108] == [120, 109, 108];
  }

  /** Over any memory that holds the string (terminated, if it is empty) the computed key is `Key`. */
  lemma FastKeyOfMemory(mem: seq<byte>, len: nat)
    requires mem != [] && len <= |mem| && (len == 0 ==> mem[0] == 0)
    ensures FastKey(mem, len) == FastKey(mem[..len] + [0], len)
  {
    if len > 0 {
      assert (mem[..len] + [0])[..len] == mem[..len];
      SameBytesSameKey(mem, mem[..len] + [0], len);
    }
  }

  /** The macro xmlDictComputeKey */
  method ComputeKey(size: nat, mem: seq<byte>, len: nat, seed: bv32) returns (key: nat)
    requires mem != [] && len <= |mem| && (len == 0 ==> mem[0] == 0)
    ensures key == Key(size, mem[..len], seed)
  {
    if size == MIN_DICT_SIZE {
      key := ComputeFastKey(mem, len);
      FastKeyOfMemory(mem, len);
    } else {
      key := ComputeBigKey(mem, len, seed);
    }
  }

  method ComputeFastKey(mem: seq<byte>, namelen: nat) returns (value: nat)
    requires mem != [] && namelen <= |mem|
    ensures value == FastKey(mem, namelen)
  {
    value := mem[0] as nat * 32;
    var n: int := namelen;
    if n > 10 {
      value := value + mem[n - 1];
      n := 10;
    }
    ghost var start := value;
    while n > 1
      invariant 0 <= n <= |mem| && n <= 10
      invariant value + Sum(mem, n) == start + Sum(mem, if namelen > 10 then 10 else namelen)
    {
      value := value + mem[n - 1];
      n := n - 1;
    }
  }
}
