/** The hash table itself. The variable that users call `head` and the table record that it leads to are one
    object here; `order` is what the insertion-order list stands for and `chains` what the buckets stand for. */
module UtHash {
  import opened Words
  import opened Seqs
  import opened ChainBound
  import opened Handles
  import opened Chains

  const INITIAL_NUM_BUCKETS: nat := 32
  const INITIAL_NUM_BUCKETS_LOG2: nat := 5

  lemma {:induction false} EmptyBuckets(bs: seq<Bucket>, l: Links) returns (cs: seq<seq<Item>>, caps: seq<nat>)
    requires |bs| == INITIAL_NUM_BUCKETS && forall c :: 0 <= c < |bs| ==> bs[c] == Bucket(null, 0, 0)
    requires l.Keys == {}
    ensures cs == seq(INITIAL_NUM_BUCKETS, _ => []) && Holds(INITIAL_NUM_BUCKETS, INITIAL_NUM_BUCKETS_LOG2, bs, l, cs, map[])
    ensures Sum(Lens(cs)) == 0 && CapsFit(Lens(cs), MultsOf(bs), caps)
  {
    assert Pow2(5) == 32 by { assert Pow2(1) == 2 && Pow2(2) == 4 && Pow2(3) == 8 && Pow2(4) == 16; }
    cs := seq(INITIAL_NUM_BUCKETS, _ => []);
    caps := InitialCaps(INITIAL_NUM_BUCKETS);
    assert Lens(cs) == MultsOf(bs) == seq(INITIAL_NUM_BUCKETS, _ => 0);
    SumConst(Lens(cs), 0);
  }

  /** The figures of an expansion, spelled out. */
  lemma {:induction false} GrowthFigures(bs: seq<Bucket>, cs: seq<seq<Item>>, ideal: nat)
    requires ideal > 0 && Heads(bs, cs) && Mults(bs, ideal)
    ensures |bs| == |cs| && forall b :: 0 <= b < |cs| ==>
              bs[b].count == |cs[b]| && bs[b].expandMult == if |cs[b]| > ideal then |cs[b]| / ideal else 0
    ensures Excesses(Lens(cs), ideal) ==
              seq(|cs|, b requires 0 <= b < |cs| => if |cs[b]| > ideal then |cs[b]| - ideal else 0)
  {
    forall b | 0 <= b < |cs|
      ensures bs[b].count == |cs[b]| && bs[b].expandMult == if |cs[b]| > ideal then |cs[b]| / ideal else 0
    {
      QuotientIsDiv(|cs[b]|, ideal);
    }
  }

  /** The expansion that one addition too many triggers leaves room again. */
  lemma {:induction false} RoomAfterExpand(bs: seq<Bucket>, cs: seq<seq<Item>>, ideal: nat) returns (caps: seq<nat>)
    requires |cs| > 0 && |cs| % 2 == 0 && 0 < Sum(Lens(cs)) <= 19 * (|cs| / 2) + 1
    requires Heads(bs, cs) && ideal == Ceiling(Sum(Lens(cs)), |cs|) && Mults(bs, ideal)
    ensures 1 <= ideal <= 10 && CapsFit(Lens(cs), MultsOf(bs), caps)
  {
    IdealInRange(Sum(Lens(cs)), |cs| / 2);
    assert forall b :: 0 <= b < |bs| ==> bs[b].count == |cs[b]|;
    caps := ExpandRestoresCaps(Lens(cs), MultsOf(bs), ideal);
  }

  ghost predicate SameItems(order: seq<Item>, app: Links, hs: Hashes) {
    && app.Keys == hs.Keys
    && (forall x {:trigger x in hs} :: x in hs ==> x in order)
    && (forall x {:trigger x in order} :: x in order ==> x in hs)
  }

  lemma {:induction false} SameItemsMore(order: seq<Item>, app: Links, hs: Hashes, add: Item, links: Links, h: uint32)
    requires SameItems(order, app, hs) && links.Keys == app.Keys + {add}
    ensures SameItems(order + [add], links, hs[add := h])
  {
  }

  /** One expansion of a table: the items it had then, the ideal chain length, and the items beyond it. */
  datatype Growth = Growth(items: nat, ideal: nat, nonideal: nat) {
    predicate Ineffective() {
      2 * nonideal > items
    }
  }

  predicate TwiceIneffective(h: seq<Growth>) {
    |h| >= 2 && h[|h| - 2].Ineffective() && h[|h| - 1].Ineffective()
  }

  /** What the fields of a table say of the expansions `h` since it was made: how many there were, what the last one
      found, and that expansion is inhibited exactly when the last two in a row were ineffective, as no two before
      were. */
  ghost predicate Grew(h: seq<Growth>, log2: nat, ideal: nat, nonideal: nat, ineff: nat, noexpand: bool) {
    && log2 == INITIAL_NUM_BUCKETS_LOG2 + |h|
    && (if h == [] then ideal == nonideal == 0 else ideal == h[|h| - 1].ideal && nonideal == h[|h| - 1].nonideal)
    && ineff == (if TwiceIneffective(h) then 2 else if h != [] && h[|h| - 1].Ineffective() then 1 else 0)
    && (noexpand <==> TwiceIneffective(h))
    && forall i {:trigger h[..i]} :: 0 <= i < |h| ==> !TwiceIneffective(h[..i])
  }

  lemma {:induction false} NewGrew()
    ensures Grew([], INITIAL_NUM_BUCKETS_LOG2, 0, 0, 0, false)
  {
  }

  lemma {:induction false} GrewMore(h: seq<Growth>, log2: nat, ideal: nat, nonideal: nat, ineff: nat,
                                    g: Growth, ineff': nat, noexpand': bool)
    requires Grew(h, log2, ideal, nonideal, ineff, false)
    requires ineff' == if g.nonideal > g.items / 2 then ineff + 1 else 0
    requires noexpand' <==> ineff' > 1
    ensures Grew(h + [g], log2 + 1, g.ideal, g.nonideal, ineff', noexpand')
  {
    var h' := h + [g];
    assert g.nonideal > g.items / 2 <==> g.Ineffective();
    forall i {:trigger h'[..i]} | 0 <= i < |h'|
      ensures !TwiceIneffective(h'[..i])
    {
      assert h'[..i] == if i == |h| then h else h[..i];
    }
  }

  class HashTable {
    const hash: Key -> uint32
    var head: Item?
    var tail: Item?
    var buckets: array<Bucket>
    var numBuckets: nat
    var log2NumBuckets: nat
    var numItems: nat
    var idealChainMaxlen: nat
    var nonidealItems: nat
    var ineffExpands: nat
    var noexpand: bool
    ghost var order: seq<Item>
    ghost var chains: seq<seq<Item>>
    ghost var caps: seq<nat>
    ghost var app: Links
    ghost var hs: Hashes
    ghost var history: seq<Growth>

    /** The bucket half of the table holds exactly the items that `hs` hashes. */
    ghost predicate Buckets(hs: Hashes)
      reads this`numBuckets, this`log2NumBuckets, this`buckets, this`chains, buckets, hs.Keys`hhPrev, hs.Keys`hhNext
    {
      Holds(numBuckets, log2NumBuckets, buckets[..], BktLinks(hs.Keys), chains, hs)
    }

    /** As long as expansion is not inhibited, every bucket has room left under its cap. */
    ghost predicate Room()
      reads this`noexpand, this`buckets, this`chains, this`caps, buckets
    {
      !noexpand ==> |chains| > 0 && CapsFit(Lens(chains), MultsOf(buckets[..]), caps)
    }

    ghost predicate Grown()
      reads this`history, this`log2NumBuckets, this`idealChainMaxlen, this`nonidealItems, this`ineffExpands, this`noexpand
    {
      Grew(history, log2NumBuckets, idealChainMaxlen, nonidealItems, ineffExpands, noexpand)
    }

    ghost predicate Sound()
      reads this, buckets, order
    {
      && order != [] && head == order[0] && tail == order[|order| - 1]
      && Listed() && Linked(app, order)
      && numItems == |order| == Sum(Lens(chains))
      && Buckets(hs)
      && Room()
      && Grown()
    }

    /** Every item carries the hash value of its key. */
    ghost predicate Stamped()
      reads this`order, order`hashv, order`key
    {
      forall x {:trigger x in order} :: x in order ==> x.hashv == hash(x.key)
    }

    /** The ghost fields say what the handles of the items say. */
    ghost predicate Listed()
      reads this`order, this`app, this`hs, order`prev, order`next, order`hashv, order`key
    {
      SameItems(order, app, hs) && Stamped() && AppReflected(app) && Hashed(hs)
    }

    lemma {:induction false} ListedItem(x: Item)
      requires Listed() && x in order
      ensures x in app && app[x] == Link(x.prev, x.next) && x in hs && hs[x] == x.hashv == hash(x.key)
    {
    }

    lemma {:induction false} ListedItems()
      requires Listed()
      ensures Hashed(hs) && app.Keys == hs.Keys
      ensures forall x {:trigger x in hs} {:trigger x in order} :: x in hs <==> x in order
    {
    }

    ghost predicate Valid()
      reads this, buckets, order
    {
      if head == null then order == [] else Sound()
    }

    constructor (hash: Key -> uint32)
      ensures Valid() && order == [] && this.hash == hash && fresh(buckets)
    {
      this.hash := hash;
      head, tail := null, null;
      buckets := new Bucket[0];
      numBuckets, log2NumBuckets, numItems, idealChainMaxlen, nonidealItems, ineffExpands := 0, 0, 0, 0, 0, 0;
      noexpand := false;
      order, chains, caps, app, hs, history := [], [], [], map[], map[], [];
    }

    method MakeTable()
      requires head != null
      modifies this`tail, this`buckets, this`numBuckets, this`log2NumBuckets, this`numItems, this`idealChainMaxlen,
               this`nonidealItems, this`ineffExpands, this`noexpand, this`chains, this`caps, this`history
      ensures tail == head && numItems == 0 == Sum(Lens(chains)) && fresh(buckets)
      ensures Buckets(map[]) && Room() && chains == seq(32, _ => []) && numBuckets == 32
      ensures !noexpand && ineffExpands == nonidealItems == idealChainMaxlen == 0 && history == [] && Grown()
      ensures buckets.Length == 32 && forall b :: 0 <= b < 32 ==> buckets[b] == Bucket(null, 0, 0)
    {
      hide Holds, CapsFit, Sum, Lens, MultsOf, Pow2, Grew;
      ClearFigures();
      buckets, chains, caps := ZeroedBuckets();
    }

    /** What the cleared table record holds besides the bucket array. */
    method ClearFigures()
      modifies this`tail, this`numBuckets, this`log2NumBuckets, this`numItems, this`idealChainMaxlen,
               this`nonidealItems, this`ineffExpands, this`noexpand, this`history
      ensures tail == head && numItems == 0 && numBuckets == INITIAL_NUM_BUCKETS && log2NumBuckets == INITIAL_NUM_BUCKETS_LOG2
      ensures !noexpand && ineffExpands == nonidealItems == idealChainMaxlen == 0 && history == [] && Grown()
    {
      hide Grew;
      NewGrew();
      tail := head;
      numBuckets, log2NumBuckets := INITIAL_NUM_BUCKETS, INITIAL_NUM_BUCKETS_LOG2;
      numItems, idealChainMaxlen, nonidealItems, ineffExpands, noexpand := 0, 0, 0, 0, false;
      history := [];
    }

    /** The cleared bucket array of a new table. */
    static method ZeroedBuckets() returns (bs: array<Bucket>, ghost cs: seq<seq<Item>>, ghost caps: seq<nat>)
      ensures fresh(bs) && bs.Length == 32 && forall b :: 0 <= b < 32 ==> bs[b] == Bucket(null, 0, 0)
      ensures cs == seq(32, _ => []) && Sum(Lens(cs)) == 0 && CapsFit(Lens(cs), MultsOf(bs[..]), caps)
      ensures var none: Hashes := map[];
              Holds(INITIAL_NUM_BUCKETS, INITIAL_NUM_BUCKETS_LOG2, bs[..], BktLinks(none.Keys), cs, none)
    {
      hide Holds, CapsFit, Sum, Lens, MultsOf;
      bs := new Bucket[INITIAL_NUM_BUCKETS](_ => Bucket(null, 0, 0));
      ghost var none: Hashes := map[];
      cs, caps := EmptyBuckets(bs[..], BktLinks(none.Keys));
    }

    method Expand(ghost hs: Hashes)
      requires Buckets(hs) && Hashed(hs)
      requires numItems == Sum(Lens(chains)) > 0
      modifies this`buckets, this`numBuckets, this`log2NumBuckets, this`idealChainMaxlen, this`nonidealItems,
               this`ineffExpands, this`noexpand, this`chains, this`history, hs.Keys`hhPrev, hs.Keys`hhNext
      ensures Buckets(hs) && fresh(buckets) && Sum(Lens(chains)) == numItems
      ensures history == old(history) + [Growth(numItems, idealChainMaxlen, nonidealItems)]
      ensures log2NumBuckets == old(log2NumBuckets) + 1 && numBuckets == 2 * old(numBuckets)
      ensures Doubled(chains, old(chains), hs) && |chains| == numBuckets && Heads(buckets[..], chains)
      ensures idealChainMaxlen == Ceiling(numItems, numBuckets)
      ensures Mults(buckets[..], idealChainMaxlen)
      ensures nonidealItems == Sum(Excesses(Lens(chains), idealChainMaxlen))
      ensures ineffExpands == if nonidealItems > numItems / 2 then old(ineffExpands) + 1 else 0
      ensures noexpand == (old(noexpand) || ineffExpands > 1)
    {
      assert numBuckets == Pow2(log2NumBuckets);
      ShiftAndMaskIsCeiling(numItems, log2NumBuckets + 1);
      var ideal := ShiftRight(numItems, log2NumBuckets + 1)
        + (if BitAnd(numItems, numBuckets * 2 - 1) != 0 then 1 else 0);
      assert ideal == Ceiling(numItems, 2 * numBuckets) > 0;
      hide Holds, Sum, Lens, Excesses, Hashed, Heads, Doubled, Mults, Ceiling, BitAnd, ShiftRight, BktLinks;
      idealChainMaxlen := ideal;
      Rebuild(ideal, hs);
    }

    /** The new bucket array, filled from the old one, takes its place. */
    method Rebuild(ideal: nat, ghost hs: Hashes)
      requires Buckets(hs) && Hashed(hs) && ideal > 0
      modifies this`buckets, this`numBuckets, this`log2NumBuckets, this`nonidealItems, this`ineffExpands, this`noexpand,
               this`chains, this`history, hs.Keys`hhPrev, hs.Keys`hhNext
      ensures Buckets(hs) && fresh(buckets) && Sum(Lens(chains)) == old(Sum(Lens(chains)))
      ensures history == old(history) + [Growth(numItems, idealChainMaxlen, nonidealItems)]
      ensures log2NumBuckets == old(log2NumBuckets) + 1 && numBuckets == 2 * old(numBuckets)
      ensures Doubled(chains, old(chains), hs) && |chains| == numBuckets && Heads(buckets[..], chains)
      ensures Mults(buckets[..], ideal) && nonidealItems == Sum(Excesses(Lens(chains), ideal))
      ensures ineffExpands == if nonidealItems > numItems / 2 then old(ineffExpands) + 1 else 0
      ensures noexpand == (old(noexpand) || ineffExpands > 1)
    {
      hide AllLinked, Slotted, Heads, Covered, Doubled, Mults, Sum, Lens, Excesses, Hashed;
      ghost var bs, l := buckets[..], BktLinks(hs.Keys);
      var nb, nonideal;
      ghost var cs;
      nb, nonideal, cs := Redistribute(buckets, ideal, chains, hs, log2NumBuckets);
      DoubledHolds(numBuckets, log2NumBuckets, bs, l, chains, hs, nb[..], BktLinks(hs.Keys), cs);
      Install(nb, nonideal, cs, hs.Keys);
    }

    method Install(nb: array<Bucket>, nonideal: nat, ghost cs: seq<seq<Item>>, ghost items: set<Item>)
      modifies this`buckets, this`numBuckets, this`log2NumBuckets, this`nonidealItems, this`ineffExpands, this`noexpand,
               this`chains, this`history
      ensures history == old(history) + [Growth(numItems, idealChainMaxlen, nonidealItems)]
      ensures buckets == nb && chains == cs && nonidealItems == nonideal
      ensures buckets[..] == old(nb[..]) && BktLinks(items) == old(BktLinks(items))
      ensures log2NumBuckets == old(log2NumBuckets) + 1 && numBuckets == 2 * old(numBuckets)
      ensures ineffExpands == if nonidealItems > numItems / 2 then old(ineffExpands) + 1 else 0
      ensures noexpand == (old(noexpand) || ineffExpands > 1)
    {
      chains := cs;
      nonidealItems := nonideal;
      numBuckets := numBuckets * 2;
      log2NumBuckets := log2NumBuckets + 1;
      buckets := nb;
      assert ShiftRight(numItems, 1) == numItems / 2;
      ineffExpands := if nonidealItems > ShiftRight(numItems, 1) then ineffExpands + 1 else 0;
      if ineffExpands > 1 {
        noexpand := true;
      }
      history := history + [Growth(numItems, idealChainMaxlen, nonidealItems)];
    }

    /** An expansion of a table that may expand, and what its history says afterwards. */
    method ExpandGrown(ghost hs: Hashes)
      requires Buckets(hs) && Hashed(hs) && Grown() && !noexpand
      requires numItems == Sum(Lens(chains)) > 0
      modifies this`buckets, this`numBuckets, this`log2NumBuckets, this`idealChainMaxlen, this`nonidealItems,
               this`ineffExpands, this`noexpand, this`chains, this`history, hs.Keys`hhPrev, hs.Keys`hhNext
      ensures Buckets(hs) && fresh(buckets) && Sum(Lens(chains)) == numItems && Grown()
      ensures history == old(history) + [Growth(numItems, idealChainMaxlen, nonidealItems)]
      ensures numBuckets == 2 * old(numBuckets) && |chains| == numBuckets && Heads(buckets[..], chains)
      ensures Doubled(chains, old(chains), hs) && idealChainMaxlen == Ceiling(numItems, numBuckets)
      ensures Mults(buckets[..], idealChainMaxlen)
      ensures nonidealItems == Sum(Excesses(Lens(chains), idealChainMaxlen))
    {
      hide HashTable.Buckets, Sum, Lens, Excesses, Hashed, Heads, Doubled, Mults, Ceiling, Grew;
      ghost var h, log2, ideal, nonideal, ineff := history, log2NumBuckets, idealChainMaxlen, nonidealItems, ineffExpands;
      Expand(hs);
      GrewMore(h, log2, ideal, nonideal, ineff, Growth(numItems, idealChainMaxlen, nonidealItems), ineffExpands, noexpand);
    }

    /** Before `add` goes on its chain: the buckets hold all that `hs` hashes but `add`, and `numItems` counts it. */
    ghost predicate AllBut(add: Item, hs: Hashes)
      reads this`numBuckets, this`log2NumBuckets, this`buckets, this`chains, buckets, hs.Keys`hhPrev, hs.Keys`hhNext
    {
      HoldsAllBut(numBuckets, log2NumBuckets, buckets[..], BktLinks(hs.Keys), chains, hs, add)
    }

    method LinkIn(bkt: nat, add: Item, ghost hs: Hashes)
      requires AllBut(add, hs) && add in hs && hs[add] == add.hashv && buckets.Length == |chains| == numBuckets > 0
      requires bkt == ToBkt(add.hashv, numBuckets)
      modifies this`chains, buckets, hs.Keys`hhPrev, hs.Keys`hhNext
      ensures Buckets(hs) && Sum(Lens(chains)) == old(Sum(Lens(chains))) + 1
      ensures bkt < |old(chains)| && chains == old(chains)[bkt := [add] + old(chains[bkt])]
      ensures Lens(chains) == old(Lens(chains))[bkt := old(Lens(chains))[bkt] + 1]
      ensures MultsOf(buckets[..]) == old(MultsOf(buckets[..]))
      ensures buckets == old(buckets) && bkt < buckets.Length
      ensures buckets[bkt].count == Lens(chains)[bkt] && buckets[bkt].expandMult == MultsOf(buckets[..])[bkt]
      ensures buckets[bkt].count == old(buckets[bkt].count) + 1 && buckets[bkt].expandMult == old(buckets[bkt].expandMult)
    {
      hide Holds, HoldsAllBut, Sum, Lens, MultsOf, ToBkt;
      var b := buckets[bkt].(count := buckets[bkt].count + 1);
      HoldsOneMore(numBuckets, log2NumBuckets, buckets[..], BktLinks(hs.Keys), chains, hs, add, bkt, b.(hhHead := add));
      LinkFront(add, b.hhHead, hs.Keys);
      buckets[bkt] := b.(hhHead := add);
      chains := chains[bkt := [add] + chains[bkt]];
      assert buckets[..] == old(buckets[..])[bkt := b.(hhHead := add)];
    }

    method AddToBkt(bkt: nat, add: Item, ghost hs: Hashes)
      requires AllBut(add, hs) && Room() && Grown() && Hashed(hs) && add in hs && bkt == ToBkt(add.hashv, numBuckets)
      requires buckets.Length == |chains| == numBuckets > 0 && numItems == Sum(Lens(chains)) + 1
      modifies this`buckets, this`numBuckets, this`log2NumBuckets, this`idealChainMaxlen, this`nonidealItems,
               this`ineffExpands, this`noexpand, this`chains, this`caps, this`history,
               buckets, hs.Keys`hhPrev, hs.Keys`hhNext
      ensures Buckets(hs) && Room() && Grown() && numItems == Sum(Lens(chains))
      ensures var pushed := old(chains)[bkt := [add] + old(chains[bkt])];
              if old(buckets[bkt]).count + 1 >= (old(buckets[bkt]).expandMult + 1) * CAPACITY_THRESH && !old(noexpand) then
                && numBuckets == 2 * old(numBuckets) && Doubled(chains, pushed, hs)
                && idealChainMaxlen == Ceiling(numItems, numBuckets) && 1 <= idealChainMaxlen <= 10
                && nonidealItems == Sum(Excesses(Lens(chains), idealChainMaxlen)) && Mults(buckets[..], idealChainMaxlen)
                && history == old(history) + [Growth(numItems, idealChainMaxlen, nonidealItems)]
              else
                && numBuckets == old(numBuckets) && chains == pushed
                && unchanged(`idealChainMaxlen, `nonidealItems, `ineffExpands, `noexpand, `history)
      ensures buckets == old(buckets) || fresh(buckets)
    {
      hide HoldsAllBut, Sum, Lens, MultsOf, ToBkt, CapsFit, Threaded, Covered, Mults, Excesses, Grew, Doubled, Ceiling;
      ghost var counts, mults := Lens(chains), MultsOf(buckets[..]);
      LinkIn(bkt, add, hs);
      if !noexpand {
        OneMore(counts, mults, caps, bkt);
      }
      var b := buckets[bkt];
      if b.count >= (b.expandMult + 1) * CAPACITY_THRESH && !noexpand {
        ExpandGrown(hs);
        caps := RoomAfterExpand(buckets[..], chains, idealChainMaxlen);
      }
    }

    /** Handing a hash value to an item that the buckets do not hold yet. */
    lemma {:induction false} BucketsGrow(was: Hashes, add: Item, hs: Hashes)
      requires Buckets(was) && add !in was && hs == was[add := add.hashv]
      ensures AllBut(add, hs) && buckets.Length == |chains| == numBuckets > 0
    {
      hide Holds, HoldsAllBut;
      HoldsNew(numBuckets, log2NumBuckets, buckets[..], BktLinks(was.Keys), chains, was, add, BktLinks(hs.Keys), hs);
    }

    method LinkFirst(add: Item)
      modifies this`head, add`prev, add`next
      ensures head == add && add.prev == null && add.next == null
    {
      add.next := null;
      head := add;
      head.prev := null;
    }

    method AddFirst(add: Item)
      requires head == null && order == []
      modifies this, add`prev, add`next, add`hashv
      ensures order == [add] && head == tail == add && numItems == 1 && add.hashv == hash(add.key)
      ensures Listed() && Linked(app, order) && hs == map[add := add.hashv]
      ensures Sum(Lens(chains)) == 0 && Buckets(map[]) && Room() && Grown() && fresh(buckets)
      ensures chains == seq(32, _ => []) && numBuckets == 32 && history == []
      ensures buckets.Length == 32 && forall b :: 0 <= b < 32 ==> buckets[b] == Bucket(null, 0, 0)
      ensures !noexpand && ineffExpands == nonidealItems == idealChainMaxlen == 0
    {
      hide Buckets, Room, Sum, Lens, Grown;
      LinkFirst(add);
      app, hs := map[], map[];
      MakeTable();
      Count(add, map[add := Link(null, null)]);
    }

    method LinkLast(add: Item)
      requires tail != null && tail != add
      modifies this`tail, tail`next, add`prev, add`next
      ensures tail == add && add.prev == old(tail) && add.next == null && old(tail).next == add
    {
      add.next := null;
      tail.next := add;
      add.prev := tail;
      tail := add;
    }

    method Count(add: Item, ghost links: Links)
      requires add !in hs && SameItems(order, app, hs) && Stamped() && Hashed(hs)
      requires AppReflected(links) && links.Keys == app.Keys + {add}
      modifies this`numItems, this`order, this`app, this`hs, add`hashv
      ensures numItems == old(numItems) + 1 && add.hashv == hash(add.key)
      ensures order == old(order) + [add] && app == links && hs == old(hs)[add := add.hashv] && Listed()
    {
      SameItemsMore(order, app, hs, add, links, hash(add.key));
      hide SameItems;
      numItems := numItems + 1;
      add.hashv := hash(add.key);
      order, app, hs := order + [add], links, hs[add := add.hashv];
    }

    method AddNext(add: Item)
      requires head != null && Sound() && add !in order
      modifies this`tail, this`numItems, this`order, this`app, this`hs, order`next, add`prev, add`next, add`hashv
      ensures order == old(order) + [add] && head == order[0] && tail == add && numItems == old(numItems) + 1
      ensures Listed() && Linked(app, order) && hs == old(hs)[add := add.hashv] && add !in old(hs)
      ensures add.hashv == hash(add.key)
    {
      hide Buckets, Room, Sum, Lens, Linked;
      assert tail in order && tail == At(order, |order| - 1);
      AppendLinked(app, order, add);
      ghost var links := AppendLinks(app, add, tail);
      LinkLast(add);
      assert AppReflected(links) && Stamped();
      hide AppendLinks, AppReflected, Stamped, SameItems, Hashed, Listed;
      Count(add, links);
    }

    /** The half of an addition that happens before the bucket. */
    method Enlist(add: Item)
      requires Valid() && add !in order
      modifies this, order`next, add`prev, add`next, add`hashv
      ensures order == old(order) + [add] && head == order[0] && tail == add && add.hashv == hash(add.key)
      ensures Listed() && Linked(app, order) && numItems == |order| == Sum(Lens(chains)) + 1
      ensures AllBut(add, hs) && Room() && Grown() && buckets.Length == |chains| == numBuckets > 0
      ensures buckets == old(buckets) || fresh(buckets)
      ensures if old(head) == null then
                && chains == seq(32, _ => []) && numBuckets == 32 && history == []
                && (forall b :: 0 <= b < 32 ==> buckets[b] == Bucket(null, 0, 0))
                && !noexpand && ineffExpands == nonidealItems == idealChainMaxlen == 0
              else
                && unchanged(`buckets, `chains, `numBuckets, `history)
                && unchanged(`noexpand, `ineffExpands, `nonidealItems, `idealChainMaxlen) && buckets[..] == old(buckets[..])
    {
      hide Buckets, AllBut, Room, Sum, Lens, Linked, Listed, Grew;
      if head == null {
        AddFirst(add);
        BucketsGrow(map[], add, hs);
      } else {
        AddNext(add);
        BucketsGrow(old(hs), add, hs);
      }
    }

    /** HASH_ADD. The first item makes a table of 32 buckets that may expand. Any other one goes in front of the chain of
        its bucket, and where that is full the table expands as it owes; nothing else touches the expansion fields. */
    method Add(add: Item)
      requires Valid() && add !in order
      modifies this, buckets, order`next, order`hhPrev, order`hhNext,
               add`prev, add`next, add`hhPrev, add`hhNext, add`hashv
      ensures Valid() && order == old(order) + [add]
      ensures buckets == old(buckets) || fresh(buckets)
      ensures old(head) == null ==>
                && numBuckets == 32 && history == [] && !noexpand
                && ineffExpands == nonidealItems == idealChainMaxlen == 0
      ensures old(head) != null ==>
                var bkt, bs, cs := ToBkt(hash(add.key), old(numBuckets)), old(buckets[..]), old(chains);
                var pushed := cs[bkt := [add] + cs[bkt]];
                if bs[bkt].count + 1 >= (bs[bkt].expandMult + 1) * CAPACITY_THRESH && !old(noexpand) then
                  && numBuckets == 2 * old(numBuckets) && Doubled(chains, pushed, hs)
                  && idealChainMaxlen == Ceiling(numItems, numBuckets) && 1 <= idealChainMaxlen <= 10
                  && nonidealItems == Sum(Excesses(Lens(chains), idealChainMaxlen)) && Mults(buckets[..], idealChainMaxlen)
                  && history == old(history) + [Growth(numItems, idealChainMaxlen, nonidealItems)]
                else
                  && numBuckets == old(numBuckets) && chains == pushed
                  && unchanged(`idealChainMaxlen, `nonidealItems, `ineffExpands, `noexpand, `history)
    {
      hide Buckets, AllBut, Room, Sum, Lens, Linked, Listed, Grew, Doubled, Mults, Excesses, Ceiling, ToBkt;
      Enlist(add);
      ListedItems();
      assert add in order && order != [] && order[|order| - 1] == add;
      AddToBkt(ToBkt(add.hashv, numBuckets), add, hs);
      assert Listed() && Linked(app, order);
      hide Hashed, Grown, HashTable.Listed;
      assert head == order[0] && tail == order[|order| - 1];
      assert Sound();
      hide Sound;
    }

    /** What a walk along the chain of bucket `b` may rely on. */
    lemma {:induction false} ChainOf(b: nat)
      requires Buckets(hs) && b < numBuckets
      ensures buckets.Length == |chains| == numBuckets
      ensures var s := chains[b];
              && buckets[b].hhHead == At(s, 0) && NoDup(s)
              && forall i {:trigger s[i]} :: 0 <= i < |s| ==> s[i] in hs && s[i].hhNext == At(s, i + 1)
    {
      var l, s := BktLinks(hs.Keys), chains[b];
      forall i | 0 <= i < |s|
        ensures s[i] in hs && s[i].hhNext == At(s, i + 1)
      {
        assert s[i] in chains[b] && s[i] in l;
      }
    }

    lemma {:induction false} KeysCovered(key: Key)
      requires Sound()
      ensures |chains| == numBuckets > 0
      ensures forall x {:trigger x in order} :: x in order && x.key == key ==> x in chains[ToBkt(hash(key), |chains|)]
      ensures forall x {:trigger x in chains[ToBkt(hash(key), |chains|)]} ::
                x in chains[ToBkt(hash(key), |chains|)] ==> x in order
    {
      hide Room, Linked, CapsFit, Sum, Lens, ToBkt;
    }

    /** HASH_FIND: the first item with the key on the chain of its bucket, or none if the table has no such item. */
    method Find(key: Key) returns (out: Item?)
      requires Valid()
      ensures out != null ==> out in order && out.key == key
      ensures out == null ==> forall x {:trigger x in order} :: x in order ==> x.key != key
      ensures head != null ==> |chains| > 0 && out == Lookup(chains[ToBkt(hash(key), |chains|)], key)
      ensures head != null && out != null ==>
                var s := chains[ToBkt(hash(key), |chains|)];
                exists k {:trigger s[k]} :: 0 <= k < |s| && s[k] == out && forall j {:trigger s[j]} :: 0 <= j < k ==> s[j].key != key
    {
      hide Room, Linked, Listed, Buckets, Lens, Sum, ToBkt, Lookup;
      out := null;
      if head != null {
        KeysCovered(key);
        var bkt := ToBkt(hash(key), numBuckets);
        ChainOf(bkt);
        ghost var s, k := chains[bkt], 0;
        ghost var n := LookupFinds(s, key);
        out := buckets[bkt].hhHead;
        while out != null
          invariant 0 <= k <= |s| && out == At(s, k)
          invariant forall j {:trigger s[j]} :: 0 <= j < k ==> s[j].key != key
          decreases |s| - k
        {
          if out.key == key {
            break;
          }
          out := out.hhNext;
          k := k + 1;
        }
        assert n < |s| ==> s[n] in s;
      }
    }

    /** Taking `del` off the insertion-order list. */
    method Unlist(del: Item)
      requires AppReflected(app) && del in app && app[del].prev != del && app[del].next != del
      requires (del.prev != null ==> del.prev in app) && (del.next != null ==> del.next in app)
      modifies this`head, this`tail, app.Keys`prev, app.Keys`next
      ensures tail == if old(tail) == del then old(del.prev) else old(tail)
      ensures head == if old(del.prev) == null then old(del.next) else old(head)
      ensures AppReflected(RemoveLinks(app, del))
    {
      if del == tail {
        tail := del.prev;
      }
      if del.prev != null {
        del.prev.next := del.next;
      } else {
        head := del.next;
      }
      if del.next != null {
        del.next.prev := del.prev;
      }
    }

    method DelInBkt(bkt: nat, del: Item, ghost items: set<Item>)
      requires del in items && bkt < buckets.Length && buckets[bkt].count > 0 && del.hhPrev != del && del.hhNext != del
      requires (del.hhPrev != null ==> del.hhPrev in items) && (del.hhNext != null ==> del.hhNext in items)
      modifies buckets, items`hhPrev, items`hhNext
      ensures BktLinks(items) == RemoveLinks(old(BktLinks(items)), del)
      ensures buckets[..] == old(buckets[..])[bkt := old(var b := buckets[bkt];
                b.(count := b.count - 1, hhHead := if b.hhHead == del then del.hhNext else b.hhHead))]
    {
      buckets[bkt] := buckets[bkt].(count := buckets[bkt].count - 1);
      if buckets[bkt].hhHead == del {
        buckets[bkt] := buckets[bkt].(hhHead := del.hhNext);
      }
      if del.hhPrev != null {
        del.hhPrev.hhNext := del.hhNext;
      }
      if del.hhNext != null {
        del.hhNext.hhPrev := del.hhPrev;
      }
    }

    ghost method Forget(del: Item, cs: seq<seq<Item>>)
      requires Holds(numBuckets, log2NumBuckets, buckets[..], BktLinks(hs.Keys) - {del}, cs, hs - {del})
      requires !noexpand ==> |cs| > 0 && CapsFit(Lens(cs), MultsOf(buckets[..]), caps)
      modifies this`chains, this`hs
      ensures hs == old(hs) - {del} && chains == cs && Buckets(hs) && Room()
    {
      hide Holds, CapsFit;
      assert BktLinks((hs - {del}).Keys) == BktLinks(hs.Keys) - {del};
      chains, hs := cs, hs - {del};
    }

    method Unchain(bkt: nat, del: Item)
      requires Buckets(hs) && Room() && del in hs && hs[del] == del.hashv
      requires |chains| == numBuckets > 0 && bkt == ToBkt(del.hashv, numBuckets)
      modifies this`chains, this`hs, buckets, hs.Keys`hhPrev, hs.Keys`hhNext
      ensures hs == old(hs) - {del} && Buckets(hs) && Room()
      ensures Sum(Lens(chains)) == old(Sum(Lens(chains))) - 1
      ensures bkt < |old(chains)| && chains == old(chains)[bkt := Without(old(chains[bkt]), del)]
    {
      hide Holds, Sum, Lens, MultsOf, ToBkt, CapsFit, RemoveLinks, Without;
      ghost var bs, l, cs := buckets[..], BktLinks(hs.Keys), chains;
      Unchained(numBuckets, log2NumBuckets, bs, l, cs, hs, del, bkt);
      if !noexpand {
        OneFewer(Lens(cs), MultsOf(bs), caps, bkt);
      }
      DelInBkt(bkt, del, hs.Keys);
      Forget(del, cs[bkt := Without(cs[bkt], del)]);
    }

    /** The last steps of a deletion: the count, and what the ghost fields forget. */
    method Uncount(del: Item, ghost links: Links, ghost was: Hashes)
      requires SameItems(order, app, was) && links.Keys == app.Keys && hs == was - {del} && numItems > 0
      requires Stamped() && AppReflected(links) && Hashed(was)
      requires NoDup(order) && del in order
      modifies this`numItems, this`order, this`app
      ensures numItems == old(numItems) - 1 && order == Without(old(order), del) && app == links - {del} && Listed()
    {
      hide Without, NoDup;
      ghost var k :| 0 <= k < |order| && order[k] == del;
      WithoutItems(order, k);
      numItems := numItems - 1;
      order, app := Without(order, del), links - {del};
    }

    /** Taking `del` off both lists. */
    method Detach(del: Item)
      requires Buckets(hs) && Room() && del in hs && hs[del] == del.hashv && |chains| == numBuckets > 0
      requires Stamped() && AppReflected(app) && Hashed(hs) && app.Keys == hs.Keys
      requires app[del] == Link(del.prev, del.next) && del.prev != del && del.next != del
      requires (del.prev != null ==> del.prev in app) && (del.next != null ==> del.next in app)
      modifies this`head, this`tail, this`chains, this`hs,
               buckets, app.Keys`prev, app.Keys`next, app.Keys`hhPrev, app.Keys`hhNext
      ensures tail == if old(tail) == del then old(del.prev) else old(tail)
      ensures head == if old(del.prev) == null then old(del.next) else old(head)
      ensures hs == old(hs) - {del} && Buckets(hs) && Room() && Sum(Lens(chains)) == old(Sum(Lens(chains))) - 1
      ensures var bkt := ToBkt(old(del.hashv), numBuckets);
              bkt < |old(chains)| && chains == old(chains)[bkt := Without(old(chains)[bkt], del)]
      ensures app == old(app) && del in app
      ensures (app[del].prev != null ==> app[del].prev in app) && (app[del].next != null ==> app[del].next in app)
      ensures Stamped() && AppReflected(RemoveLinks(app, del)) && Hashed(old(hs))
    {
      hide Buckets, Room, Sum, Lens, RemoveLinks, ToBkt, Stamped, AppReflected, Hashed;
      var bkt := ToBkt(del.hashv, numBuckets);
      ghost var links: Links := RemoveLinks(app, del);
      Unlist(del);
      assert AppReflected(links);
      Unchain(bkt, del);
      assert AppReflected(links);
    }

    method DeleteLinked(del: Item)
      requires Sound() && del in order && !(del.prev == null && del.next == null)
      modifies this`head, this`tail, this`chains, this`hs, this`numItems, this`order, this`app,
               buckets, order`prev, order`next, order`hhPrev, order`hhNext
      ensures Sound() && order == Without(old(order), del)
      ensures var bkt := ToBkt(hash(del.key), numBuckets);
              bkt < |old(chains)| && chains == old(chains)[bkt := Without(old(chains)[bkt], del)]
    {
      hide Buckets, Room, Grown, Sum, Lens, Linked, RemoveLinks, Without, ToBkt, Stamped, AppReflected, NoDup, SameItems, Hashed;
      Unlisted(app, order, del);
      ListedItem(del);
      ListedItems();
      KeysCovered(del.key);
      ghost var links, was := RemoveLinks(app, del), hs;
      Detach(del);
      Uncount(del, links, was);
    }

    method Delete(del: Item)
      requires Valid() && del in order
      modifies this, buckets, order`prev, order`next, order`hhPrev, order`hhNext
      ensures Valid() && order == Without(old(order), del)
      ensures buckets == old(buckets)
      ensures unchanged(`numBuckets, `idealChainMaxlen, `nonidealItems, `ineffExpands, `noexpand, `history)
      ensures head != null ==>
                var bkt := ToBkt(hash(del.key), numBuckets);
                bkt < |old(chains)| && chains == old(chains)[bkt := Without(old(chains)[bkt], del)]
    {
      hide Buckets, Room, Grown, Sum, Lens, Linked, RemoveLinks, Without, NoDup, Hashed, ToBkt, Stamped, SameItems;
      Unlisted(app, order, del);
      if del.prev == null && del.next == null {
        head := null;
        order := [];
      } else {
        DeleteLinked(del);
      }
    }
  }
}
