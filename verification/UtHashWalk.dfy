/** Walks over a whole table: the integrity check of the hash table run on its own invariant, the iteration
    that tolerates the deletion of the current item, and the bounds that hold of every valid table. */
module UtHashWalk {
  import opened Words
  import opened Seqs
  import opened ChainBound
  import opened Handles
  import opened Chains
  import opened UtHash

  /** As long as expansion is not inhibited a table holds at most 19 items a bucket, and no chain is longer
      than ten times one more than the multiplier of its bucket. */
  lemma {:induction false} ChainsBounded(t: HashTable)
    requires t.Valid() && t.head != null && !t.noexpand
    ensures t.buckets.Length == t.numBuckets == |t.chains| && t.numItems == |t.order| <= 19 * t.numBuckets
    ensures forall b {:trigger t.chains[b]} :: 0 <= b < t.numBuckets ==>
              |t.chains[b]| <= CAPACITY_THRESH * (t.buckets[b].expandMult + 1)
  {
    CapsBoundItems(Lens(t.chains), MultsOf(t.buckets[..]), t.caps);
    assert |t.buckets[..]| == |t.chains|;
    forall b | 0 <= b < t.numBuckets
      ensures |t.chains[b]| <= CAPACITY_THRESH * (t.buckets[b].expandMult + 1)
    {
      assert Lens(t.chains)[b] == |t.chains[b]| && MultsOf(t.buckets[..])[b] == t.buckets[..][b].expandMult;
    }
  }

  lemma {:induction false} Pow2Five(n: nat)
    ensures Pow2(5 + n) == 32 * Pow2(n)
  {
    if n == 0 {
      assert Pow2(1) == 2 && Pow2(2) == 4 && Pow2(3) == 8 && Pow2(4) == 16;
    } else {
      Pow2Five(n - 1);
    }
  }

  /** Every table has been made with 32 buckets and doubled by each of its expansions since; it is inhibited from further
      ones exactly when the last two in a row each left more than half of the items beyond the ideal length, which no two
      in a row before did. */
  lemma {:induction false} InhibitedAfterTwo(t: HashTable)
    requires t.Valid() && t.head != null
    ensures t.numBuckets == 32 * Pow2(|t.history|)
    ensures var h, n := t.history, |t.history|;
            && (t.noexpand <==> n >= 2 && 2 * h[n - 2].nonideal > h[n - 2].items && 2 * h[n - 1].nonideal > h[n - 1].items)
            && forall i {:trigger h[i]} :: 0 <= i < n - 2 ==>
                 !(2 * h[i].nonideal > h[i].items && 2 * h[i + 1].nonideal > h[i + 1].items)
  {
    var h, n := t.history, |t.history|;
    Pow2Five(n);
    hide Linked, HashTable.Listed, HashTable.Room, Sum, Lens, Threaded, Covered, Pow2;
    forall i {:trigger h[i]} | 0 <= i < n - 2
      ensures !(2 * h[i].nonideal > h[i].items && 2 * h[i + 1].nonideal > h[i + 1].items)
    {
      assert !TwiceIneffective(h[..i + 2]);
    }
  }

  /** What a walk along a chain or along the insertion-order list finds in the handles. */
  lemma {:induction false} HandlesOf(t: HashTable)
    requires t.Sound()
    ensures t.buckets.Length == t.numBuckets == |t.chains| == |Lens(t.chains)|
    ensures forall b {:trigger t.buckets[b]} :: 0 <= b < t.numBuckets ==>
              t.buckets[b].hhHead == At(t.chains[b], 0) && t.buckets[b].count == |t.chains[b]|
    ensures forall b, i {:trigger t.chains[b][i]} :: 0 <= b < |t.chains| && 0 <= i < |t.chains[b]| ==>
              t.chains[b][i].hhPrev == At(t.chains[b], i - 1) && t.chains[b][i].hhNext == At(t.chains[b], i + 1)
    ensures forall i {:trigger t.order[i]} :: 0 <= i < |t.order| ==>
              t.order[i].prev == At(t.order, i - 1) && t.order[i].next == At(t.order, i + 1)
  {
    hide HashTable.Room, Sum, Covered, NoDup, SameItems, HashTable.Stamped, Hashed;
    var l := BktLinks(t.hs.Keys);
    forall b, i | 0 <= b < |t.chains| && 0 <= i < |t.chains[b]|
      ensures t.chains[b][i].hhPrev == At(t.chains[b], i - 1) && t.chains[b][i].hhNext == At(t.chains[b], i + 1)
    {
      assert Linked(l, t.chains[b]) && t.chains[b][i] in l;
    }
    forall i | 0 <= i < |t.order|
      ensures t.order[i].prev == At(t.order, i - 1) && t.order[i].next == At(t.order, i + 1)
    {
      assert t.order[i] in t.app;
    }
  }

  ghost function Chained(t: HashTable): (items: set<Item>)
    reads t`chains
  {
    set b, i | 0 <= b < |t.chains| && 0 <= i < |t.chains[b]| :: t.chains[b][i]
  }

  /** Walking forward along a chain, or along the insertion-order list, comes to an end and shows `chains`, or
      `order`. */
  ghost predicate Forward(t: HashTable)
    reads t, t.buckets, t.order, Chained(t)
  {
    && t.buckets.Length == t.numBuckets == |t.chains| && t.head == At(t.order, 0)
    && (forall b {:trigger t.buckets[b]} :: 0 <= b < t.numBuckets ==> t.buckets[b].hhHead == At(t.chains[b], 0))
    && (forall b, i {:trigger t.chains[b][i]} :: 0 <= b < |t.chains| && 0 <= i < |t.chains[b]| ==>
          t.chains[b][i].hhNext == At(t.chains[b], i + 1))
    && (forall i {:trigger t.order[i]} :: 0 <= i < |t.order| ==> t.order[i].next == At(t.order, i + 1))
  }

  /** The backward links of chain `b` and its count are right. */
  ghost predicate ChainRight(t: HashTable, b: nat)
    requires b < |t.chains| && b < t.buckets.Length
    reads t, t.buckets, Chained(t)
  {
    && t.buckets[b].count == |t.chains[b]|
    && forall i {:trigger t.chains[b][i]} :: 0 <= i < |t.chains[b]| ==> t.chains[b][i].hhPrev == At(t.chains[b], i - 1)
  }

  /** All chains are right, and together they hold as many items as the table counts. */
  ghost predicate BucketsRight(t: HashTable)
    requires Forward(t)
    reads t, t.buckets, t.order, Chained(t)
  {
    && (forall b {:trigger ChainRight(t, b)} :: 0 <= b < t.numBuckets ==> ChainRight(t, b))
    && Sum(Lens(t.chains)) == t.numItems
  }

  /** So is the insertion-order list. */
  ghost predicate OrderRight(t: HashTable)
    reads t, t.order
  {
    && (forall i {:trigger t.order[i]} :: 0 <= i < |t.order| ==> t.order[i].prev == At(t.order, i - 1))
    && |t.order| == t.numItems
  }

  /** The two, spelled out. */
  lemma {:induction false} AllRight(t: HashTable)
    requires Forward(t)
    ensures BucketsRight(t) && OrderRight(t) <==>
              && Sum(Lens(t.chains)) == |t.order| == t.numItems
              && (forall b :: 0 <= b < t.numBuckets ==> t.buckets[b].count == |t.chains[b]|)
              && (forall b, i {:trigger t.chains[b][i]} :: 0 <= b < t.numBuckets && 0 <= i < |t.chains[b]| ==>
                    t.chains[b][i].hhPrev == At(t.chains[b], i - 1))
              && (forall i {:trigger t.order[i]} :: 0 <= i < |t.order| ==> t.order[i].prev == At(t.order, i - 1))
  {
    assert (forall b {:trigger ChainRight(t, b)} :: 0 <= b < t.numBuckets ==> ChainRight(t, b)) <==>
           && (forall b {:trigger t.chains[b]} :: 0 <= b < t.numBuckets ==> t.buckets[b].count == |t.chains[b]|)
           && (forall b, i {:trigger t.chains[b][i]} :: 0 <= b < t.numBuckets && 0 <= i < |t.chains[b]| ==>
                 t.chains[b][i].hhPrev == At(t.chains[b], i - 1)) by {
      forall b | 0 <= b < t.numBuckets
        ensures ChainRight(t, b) <==>
                && t.buckets[b].count == |t.chains[b]|
                && forall i {:trigger t.chains[b][i]} :: 0 <= i < |t.chains[b]| ==> t.chains[b][i].hhPrev == At(t.chains[b], i - 1)
      {
      }
      hide ChainRight;
    }
  }

  /** HASH_FSCK on any table, valid or not, whose walks come to an end: it complains exactly about a wrong backward
      link or a wrong count. */
  method Fsck(t: HashTable) returns (oops: bool)
    requires t.head != null ==> Forward(t)
    ensures oops <==> t.head != null && !(BucketsRight(t) && OrderRight(t))
  {
    if t.head == null {
      return false;
    }
    var count, b := 0, 0;
    assert Sum(Lens(t.chains)[..0]) == 0;
    while b < t.numBuckets
      invariant b <= t.numBuckets && count == Sum(Lens(t.chains)[..b])
      invariant forall d {:trigger ChainRight(t, d)} :: 0 <= d < b ==> ChainRight(t, d)
    {
      var bktCount, thh, prev := 0, t.buckets[b].hhHead, null;
      while thh != null
        invariant bktCount <= |t.chains[b]| && thh == At(t.chains[b], bktCount) && prev == At(t.chains[b], bktCount - 1)
        invariant forall i {:trigger t.chains[b][i]} :: 0 <= i < bktCount ==> t.chains[b][i].hhPrev == At(t.chains[b], i - 1)
        decreases |t.chains[b]| - bktCount
      {
        if prev != thh.hhPrev {
          assert !ChainRight(t, b);
          return true;
        }
        bktCount := bktCount + 1;
        prev := thh;
        thh := thh.hhNext;
      }
      SumPrefix(Lens(t.chains), b);
      count := count + bktCount;
      if t.buckets[b].count != bktCount {
        assert !ChainRight(t, b);
        return true;
      }
      b := b + 1;
    }
    assert Lens(t.chains)[..b] == Lens(t.chains);
    if count != t.numItems {
      return true;
    }
    assert BucketsRight(t);
    hide BucketsRight, ChainRight;
    var prev, thh := null, t.head;
    count := 0;
    while thh != null
      invariant count <= |t.order| && thh == At(t.order, count) && prev == At(t.order, count - 1)
      invariant forall i {:trigger t.order[i]} :: 0 <= i < count ==> t.order[i].prev == At(t.order, i - 1)
      decreases |t.order| - count
    {
      count := count + 1;
      if prev != thh.prev {
        return true;
      }
      prev := thh;
      thh := thh.next;
    }
    return count != t.numItems;
  }

  /** A valid table passes: every reachable table does, since every operation keeps tables valid. */
  lemma {:induction false} ValidPasses(t: HashTable)
    requires t.Valid() && t.head != null
    ensures Forward(t) && BucketsRight(t) && OrderRight(t)
  {
    HandlesOf(t);
    hide HashTable.Buckets, HashTable.Room, HashTable.Listed, Linked;
  }

  /** The items of `s` that `drop` leaves, in their order. */
  function Kept(s: seq<Item>, drop: Item -> bool): (r: seq<Item>) {
    if s == [] then [] else Kept(s[..|s| - 1], drop) + (if drop(s[|s| - 1]) then [] else [s[|s| - 1]])
  }

  /** That is the items that `drop` does not pick, as often as they were there. */
  lemma {:induction false} KeptIs(s: seq<Item>, drop: Item -> bool, x: Item)
    ensures multiset(Kept(s, drop))[x] == if drop(x) then 0 else multiset(s)[x]
  {
    if s != [] {
      KeptIs(s[..|s| - 1], drop, x);
      assert s == s[..|s| - 1] + [s[|s| - 1]];
    }
  }

  /** What is left of the list `s` when the iteration has come to its item `k`. */
  ghost function Left(s: seq<Item>, k: nat, drop: Item -> bool): (r: seq<Item>)
    requires k <= |s|
  {
    Kept(s[..k], drop) + s[k..]
  }

  lemma {:induction false} LeftStep(s: seq<Item>, k: nat, drop: Item -> bool)
    requires k < |s| && NoDup(Left(s, k, drop))
    ensures s[k] in Left(s, k, drop)
    ensures Left(s, k + 1, drop) == if drop(s[k]) then Without(Left(s, k, drop), s[k]) else Left(s, k, drop)
    ensures s[..k + 1] == s[..k] + [s[k]]
  {
    hide NoDup, Without;
    var kept := Kept(s[..k], drop);
    var now := Left(s, k, drop);
    assert now[|kept|] == s[k];
    assert s[..k + 1][..k] == s[..k];
    WithoutAt(now, |kept|);
    assert now[..|kept|] == kept && now[|kept| + 1..] == s[k + 1..];
    assert s[k..] == [s[k]] + s[k + 1..];
    assert (kept + [s[k]]) + s[k + 1..] == now;
  }

  lemma {:induction false} KeptIn(s: seq<Item>, drop: Item -> bool)
    ensures forall i {:trigger Kept(s, drop)[i]} :: 0 <= i < |Kept(s, drop)| ==> Kept(s, drop)[i] in s
  {
    if s != [] {
      KeptIn(s[..|s| - 1], drop);
      assert s == s[..|s| - 1] + [s[|s| - 1]];
    }
  }

  lemma {:induction false} StillIn(s: seq<Item>, k: nat, drop: Item -> bool, now: seq<Item>)
    requires k <= |s| && now == Left(s, k, drop)
    ensures forall i {:trigger now[i]} :: 0 <= i < |now| ==> now[i] in s
  {
    KeptIn(s[..k], drop);
    var kept := Kept(s[..k], drop);
    forall i | 0 <= i < |now|
      ensures now[i] in s
    {
      if i < |kept| {
        assert now[i] == kept[i] && kept[i] in s[..k];
      } else {
        assert now[i] == s[k + i - |kept|];
      }
    }
  }

  /** One turn of the iteration: the body, then what the next turn needs. */
  method Visit(t: HashTable, el: Item, drop: Item -> bool, ghost s: seq<Item>, ghost k: nat)
    requires t.Valid() && k < |s| && el == s[k] && t.order == Left(s, k, drop)
    modifies t, t.buckets, s`prev, s`next, s`hhPrev, s`hhNext
    ensures t.Valid() && t.buckets == old(t.buckets)
    ensures t.order == Left(s, k + 1, drop)
    ensures k + 1 < |s| ==> s[k + 1].next == At(s, k + 2)
    ensures s[..k + 1] == s[..k] + [el]
  {
    hide HashTable.Valid, Without, NoDup, Left;
    ListFacts(t);
    LeftStep(s, k, drop);
    StillIn(s, k, drop, t.order);
    if drop(el) {
      t.Delete(el);
    }
    ListFacts(t);
    NextKept(t, s, k + 1, drop);
  }

  /** HASH_ITER with a body that deletes the items `drop` picks. */
  method IterDelete(t: HashTable, drop: Item -> bool) returns (visited: seq<Item>)
    requires t.Valid()
    modifies t, t.buckets, t.order`prev, t.order`next, t.order`hhPrev, t.order`hhNext
    ensures t.Valid()
    ensures visited == old(t.order)
    ensures t.order == Kept(old(t.order), drop)
  {
    hide HashTable.Valid, Without, NoDup, Left;
    LeftEnds(t.order, drop);
    ghost var s, k, buckets := t.order, 0, t.buckets;
    visited := [];
    ListFacts(t);
    var el := t.head;
    var tmp := if t.head != null then t.head.next else null;
    while el != null
      invariant 0 <= k <= |s| && el == At(s, k) && tmp == At(s, k + 1)
      invariant visited == s[..k]
      invariant t.Valid() && t.order == Left(s, k, drop) && t.buckets == buckets
      decreases |s| - k
    {
      Visit(t, el, drop, s, k);
      visited := visited + [el];
      el := tmp;
      tmp := if tmp != null then tmp.next else null;
      k := k + 1;
    }
    assert s[..k] == s;
  }

  lemma {:induction false} LeftEnds(s: seq<Item>, drop: Item -> bool)
    ensures Left(s, 0, drop) == s && Left(s, |s|, drop) == Kept(s, drop)
  {
    assert s[..|s|] == s;
  }

  lemma {:induction false} ListFacts(t: HashTable)
    requires t.Valid()
    ensures NoDup(t.order) && t.head == At(t.order, 0)
    ensures forall i {:trigger t.order[i]} :: 0 <= i < |t.order| ==> t.order[i].next == At(t.order, i + 1)
  {
    if t.head != null {
      HandlesOf(t);
    }
  }

  lemma {:induction false} NextKept(t: HashTable, s: seq<Item>, k: nat, drop: Item -> bool)
    requires k <= |s| && t.order == Left(s, k, drop)
    requires forall i {:trigger t.order[i]} :: 0 <= i < |t.order| ==> t.order[i].next == At(t.order, i + 1)
    ensures k < |s| ==> s[k].next == At(s, k + 1)
  {
    var kept := Kept(s[..k], drop);
    if k < |s| {
      assert t.order[|kept|] == s[k];
      assert k + 1 < |s| ==> t.order[|kept| + 1] == s[k + 1];
    }
  }
}
