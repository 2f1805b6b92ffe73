/** The hash table with its Bloom filter compiled in: a bit array that is consulted before every search. */
module Bloom {
  import opened Words
  import opened Seqs
  import opened Handles
  import opened Chains
  import opened UtHash
  import UtHashWalk

  /** The bytes that hold 2^`nbits` bits. */
  function ByteLen(nbits: nat): (n: nat)
    ensures n == (Pow2(nbits) + 7) / 8
  {
    Pow2(nbits) / 8 + (if Pow2(nbits) % 8 != 0 then 1 else 0)
  }

  /** The bit of the filter that stands for a hash value. */
  function BitIndex(hashv: nat, nbits: nat): (idx: nat)
    ensures idx == hashv % Pow2(nbits) < Pow2(nbits)
  {
    MaskIsMod(hashv, nbits);
    BitAnd(hashv, Pow2(nbits) - 1)
  }

  function Mask(idx: nat): (m: bv8) {
    (1 as bv8) << (idx % 8)
  }

  ghost predicate BitTest(bits: seq<bv8>, idx: nat) {
    idx / 8 < |bits| && bits[idx / 8] & Mask(idx) != 0
  }

  /** Every bit of the filter lies in its bytes. */
  lemma {:induction false} BitInRange(hashv: nat, nbits: nat)
    ensures BitIndex(hashv, nbits) / 8 < ByteLen(nbits)
  {
  }

  lemma {:induction false} MaskSelects(x: bv8, y: bv8, idx: nat)
    ensures (x | Mask(idx)) & Mask(idx) != 0
    ensures x & y != 0 ==> (x | Mask(idx)) & y != 0
  {
    var m := Mask(idx);
    assert m != 0;
    assert (x | m) & m == m;
    assert (x | m) & y == (x & y) | (m & y);
  }

  /** Setting a bit of a byte leaves the others as they are. */
  lemma {:induction false} MaskApart(x: bv8, j: nat, idx: nat)
    requires j % 8 != idx % 8
    ensures (x | Mask(idx)) & Mask(j) == x & Mask(j)
  {
    MaskValues(idx % 8);
    MaskValues(j % 8);
    assert Mask(idx) == Mask(idx % 8) && Mask(j) == Mask(j % 8);
    assert Mask(idx) & Mask(j) == 0;
    OrApart(x, Mask(idx), Mask(j));
  }

  lemma {:induction false} MaskValues(i: nat)
    requires i < 8
    ensures Mask(i) == if i == 0 then 1 else if i == 1 then 2 else if i == 2 then 4 else if i == 3 then 8
                       else if i == 4 then 16 else if i == 5 then 32 else if i == 6 then 64 else 128
  {
  }

  lemma {:induction false} OrApart(x: bv8, m: bv8, n: bv8)
    requires m & n == 0
    ensures (x | m) & n == x & n
  {
  }

  /** Setting a bit makes its own test succeed and leaves every other test as it is. */
  lemma {:induction false} BitSetKeeps(bits: seq<bv8>, idx: nat)
    requires idx / 8 < |bits|
    ensures BitTest(bits[idx / 8 := bits[idx / 8] | Mask(idx)], idx)
    ensures forall j: nat {:trigger BitTest(bits, j)} :: j != idx ==>
              (BitTest(bits[idx / 8 := bits[idx / 8] | Mask(idx)], j) <==> BitTest(bits, j))
  {
    MaskSelects(bits[idx / 8], 0, idx);
    forall j: nat | j != idx
      ensures BitTest(bits[idx / 8 := bits[idx / 8] | Mask(idx)], j) <==> BitTest(bits, j)
    {
      if j / 8 == idx / 8 {
        MaskApart(bits[idx / 8], j, idx);
      }
    }
  }

  class BloomTable {
    const t: HashTable
    const nbits: nat
    var bits: array<bv8>

    /** No false negatives: the bit of every item in the table is set. */
    ghost predicate Covering()
      reads this, bits, t`order, t`buckets, t.order`hashv
    {
      && bits.Length == ByteLen(nbits) && bits as object != t.buckets as object
      && forall x {:trigger x in t.order} :: x in t.order ==> BitTest(bits[..], BitIndex(x.hashv, nbits))
    }

    ghost predicate Valid()
      reads this, bits, t, t.buckets, t.order
    {
      t.Valid() && (t.head != null ==> Covering())
    }

    constructor (t: HashTable, nbits: nat)
      requires t.Valid() && t.head == null
      ensures Valid() && this.t == t && this.nbits == nbits
    {
      this.t, this.nbits := t, nbits;
      bits := new bv8[0];
    }

    /** An addition sets the bit of its hash value and no other; the first one starts from an empty filter. */
    method Add(add: Item)
      requires Valid() && add !in t.order
      modifies this, bits, t, t.buckets, t.order`next, t.order`hhPrev, t.order`hhNext,
               add`prev, add`next, add`hhPrev, add`hhNext, add`hashv
      ensures Valid() && t.order == old(t.order) + [add]
      ensures forall j: nat {:trigger BitTest(bits[..], j)} ::
                BitTest(bits[..], j) <==> j == t.hash(add.key) % Pow2(nbits) || old(t.head != null && BitTest(bits[..], j))
    {
      hide HashTable.Valid, BitTest, ByteLen, BitIndex, Mask;
      HeadTells();
      if t.head == null {
        bits := new bv8[ByteLen(nbits)](_ => 0);
        NoBits(bits[..]);
      }
      ghost var was := bits[..];
      assert Covering();
      t.Add(add);
      Hashes(add);
      BloomAdd(add);
    }

    lemma {:induction false} Hashes(x: Item)
      requires t.Valid() && x in t.order
      ensures x.hashv == t.hash(x.key)
    {
      t.ListedItem(x);
    }

    static lemma {:induction false} NoBits(bits: seq<bv8>)
      requires forall i :: 0 <= i < |bits| ==> bits[i] == 0
      ensures forall j: nat {:trigger BitTest(bits, j)} :: !BitTest(bits, j)
    {
    }

    lemma {:induction false} HeadTells()
      requires t.Valid()
      ensures t.head == null <==> t.order == []
    {
    }

    method BloomAdd(add: Item)
      requires t.order != [] && bits.Length == ByteLen(nbits) && bits as object != t.buckets as object
      requires forall x {:trigger x in t.order} :: x in t.order && x != add ==> BitTest(bits[..], BitIndex(x.hashv, nbits))
      modifies bits
      ensures Covering()
      ensures forall j: nat {:trigger BitTest(bits[..], j)} ::
                BitTest(bits[..], j) <==> j == add.hashv % Pow2(nbits) || old(BitTest(bits[..], j))
    {
      hide BitTest, ByteLen, BitIndex, Mask;
      BitInRange(add.hashv, nbits);
      var idx := BitIndex(add.hashv, nbits);
      BitSetKeeps(bits[..], idx);
      ghost var was := bits[..];
      bits[idx / 8] := bits[idx / 8] | Mask(idx);
      assert bits[..] == was[idx / 8 := was[idx / 8] | Mask(idx)];
    }

    method Delete(del: Item)
      requires Valid() && del in t.order
      modifies t, t.buckets, t.order`prev, t.order`next, t.order`hhPrev, t.order`hhNext
      ensures Valid() && t.order == Without(old(t.order), del)
    {
      hide HashTable.Sound, BitTest, NoDup;
      UtHashWalk.ListFacts(t);
      ghost var k :| 0 <= k < |t.order| && t.order[k] == del;
      WithoutItems(t.order, k);
      t.Delete(del);
    }

    /** The search through the filter ends where the search without it ends. */
    method Find(key: Key) returns (out: Item?)
      requires Valid()
      ensures out != null ==> out in t.order && out.key == key
      ensures out == null ==> forall x {:trigger x in t.order} :: x in t.order ==> x.key != key
      ensures t.head != null ==> |t.chains| > 0 && out == Lookup(t.chains[ToBkt(t.hash(key), |t.chains|)], key)
    {
      out := null;
      if t.head != null {
        var hashv := t.hash(key);
        var idx := BitIndex(hashv, nbits);
        BitInRange(hashv, nbits);
        if bits[idx / 8] & Mask(idx) != 0 {
          out := t.Find(key);
        } else {
          Absent(key);
        }
      }
    }

    lemma {:induction false} Absent(key: Key)
      requires Valid() && t.head != null && !BitTest(bits[..], BitIndex(t.hash(key), nbits))
      ensures forall x {:trigger x in t.order} :: x in t.order ==> x.key != key
      ensures |t.chains| > 0 && Lookup(t.chains[ToBkt(t.hash(key), |t.chains|)], key) == null
    {
      hide HashTable.Buckets, HashTable.Room, Linked, ToBkt, BitIndex, BitTest;
      t.KeysCovered(key);
      var s := t.chains[ToBkt(t.hash(key), |t.chains|)];
      var k := LookupFinds(s, key);
      assert k < |s| ==> s[k] in s;
      forall x | x in t.order
        ensures x.key != key
      {
        t.ListedItem(x);
      }
    }
  }
}
