/** The bucket array and the chains it stands for: pushing an item on a chain, taking one off, and the
    redistribution into twice as many buckets. */
module Chains {
  import opened Words
  import opened Seqs
  import opened ChainBound
  import opened Handles

  datatype Bucket = Bucket(hhHead: Item?, count: nat, expandMult: nat)

  /** The hash values of the items of a table. */
  type Hashes = map<Item, uint32>

  ghost predicate Hashed(hs: Hashes)
    reads hs.Keys`hashv
  {
    forall x {:trigger x in hs} {:trigger hs[x]} :: x in hs ==> hs[x] == x.hashv
  }

  /** Chain `c` of `cs` holds only items whose hash value belongs in bucket `c` of |cs|. */
  ghost predicate Slotted(cs: seq<seq<Item>>, hs: Hashes) {
    && |cs| > 0
    && forall c, x {:trigger x in cs[c]} :: 0 <= c < |cs| && x in cs[c] ==> x in hs && ToBkt(hs[x], |cs|) == c
  }

  /** Every item that `hs` hashes is on the chain of its bucket. */
  ghost predicate Covered(cs: seq<seq<Item>>, hs: Hashes) {
    && |cs| > 0
    && forall x {:trigger x in hs} :: x in hs ==> x in cs[ToBkt(hs[x], |cs|)]
  }

  ghost predicate Heads(bs: seq<Bucket>, cs: seq<seq<Item>>) {
    && |bs| == |cs|
    && forall c {:trigger bs[c]} {:trigger cs[c]} :: 0 <= c < |cs| ==> bs[c].hhHead == At(cs[c], 0) && bs[c].count == |cs[c]|
  }

  ghost predicate AllLinked(l: Links, cs: seq<seq<Item>>) {
    forall c {:trigger cs[c]} :: 0 <= c < |cs| ==> Linked(l, cs[c])
  }

  /** The buckets `bs` and the bucket links `l` represent the chains `cs`. */
  ghost predicate Threaded(bs: seq<Bucket>, l: Links, cs: seq<seq<Item>>, hs: Hashes) {
    Heads(bs, cs) && AllLinked(l, cs) && Slotted(cs, hs)
  }

  lemma {:induction false} PushThreaded(bs: seq<Bucket>, l: Links, cs: seq<seq<Item>>, hs: Hashes, bkt: nat, x: Item,
                                        b: Bucket)
    requires Threaded(bs, l, cs, hs) && bkt < |cs|
    requires x in hs && ToBkt(hs[x], |cs|) == bkt && x !in cs[bkt]
    requires b.hhHead == x && b.count == bs[bkt].count + 1
    ensures bs[bkt].hhHead != null ==> bs[bkt].hhHead in l
    ensures Threaded(bs[bkt := b], PushLinks(l, x, bs[bkt].hhHead), cs[bkt := [x] + cs[bkt]], hs)
  {
    PushLinked(l, cs[bkt], x);
    var l', cs' := PushLinks(l, x, At(cs[bkt], 0)), cs[bkt := [x] + cs[bkt]];
    forall c | 0 <= c < |cs|
      ensures Linked(l', cs'[c])
    {
      var s := cs[c];
      if c != bkt {
        forall i | 0 <= i < |s|
          ensures s[i] in l && s[i] in l' && l[s[i]] == l'[s[i]]
        {
          assert s[i] in cs[c];
          assert cs[bkt] != [] ==> cs[bkt][0] in cs[bkt];
        }
        LinkedKept(l, l', s);
      }
    }
  }

  lemma {:induction false} RemoveThreaded(bs: seq<Bucket>, l: Links, cs: seq<seq<Item>>, hs: Hashes, bkt: nat,
                                          k: nat, b: Bucket)
    requires Threaded(bs, l, cs, hs) && bkt < |cs| && k < |cs[bkt]|
    requires var x := cs[bkt][k];
             && b.hhHead == At(Without(cs[bkt], x), 0) && b.count == bs[bkt].count - 1
             && x in l && (l[x].prev != null ==> l[x].prev in l) && (l[x].next != null ==> l[x].next in l)
    ensures var x := cs[bkt][k];
            Threaded(bs[bkt := b], RemoveLinks(l, x), cs[bkt := Without(cs[bkt], x)], hs)
  {
    var x := cs[bkt][k];
    RemoveLinked(l, cs[bkt], k);
    WithoutItems(cs[bkt], k);
    var l', cs' := RemoveLinks(l, x), cs[bkt := Without(cs[bkt], x)];
    forall c | 0 <= c < |cs|
      ensures Linked(l', cs'[c])
    {
      var s := cs[c];
      if c != bkt {
        forall i | 0 <= i < |s|
          ensures s[i] in l && s[i] in l' && l[s[i]] == l'[s[i]]
        {
          assert s[i] in cs[c];
          assert k > 0 ==> cs[bkt][k - 1] in cs[bkt];
          assert k + 1 < |cs[bkt]| ==> cs[bkt][k + 1] in cs[bkt];
        }
        LinkedKept(l, l', s);
      }
    }
  }

  /** Chains stay threaded when the table comes to know more items. */
  lemma {:induction false} MoreItems(bs: seq<Bucket>, l: Links, l': Links, cs: seq<seq<Item>>, hs: Hashes, hs': Hashes)
    requires Threaded(bs, l, cs, hs) && hs.Keys <= l.Keys
    requires forall x {:trigger x in hs} :: x in hs ==> x in hs' && hs'[x] == hs[x] && x in l' && l'[x] == l[x]
    ensures Threaded(bs, l', cs, hs')
  {
    forall c | 0 <= c < |cs|
      ensures Linked(l', cs[c])
    {
      var s := cs[c];
      forall k | 0 <= k < |s|
        ensures s[k] in l && s[k] in l' && l[s[k]] == l'[s[k]]
      {
        assert s[k] in cs[c];
      }
      LinkedKept(l, l', s);
    }
  }

  /** The items of `s` that belong in bucket `c` of `m`, the last one first: the order in which pushing
      them one by one on the front of that bucket leaves them. */
  ghost function Moved(s: seq<Item>, hs: Hashes, c: nat, m: nat): (r: seq<Item>)
    requires m > 0 && forall x :: x in s ==> x in hs
  {
    if s == [] then [] else
      var x := s[|s| - 1];
      (if ToBkt(hs[x], m) == c then [x] else []) + Moved(s[..|s| - 1], hs, c, m)
  }

  lemma {:induction false} MovedItems(s: seq<Item>, hs: Hashes, c: nat, m: nat)
    requires m > 0 && forall x :: x in s ==> x in hs
    ensures forall x {:trigger x in Moved(s, hs, c, m)} :: x in Moved(s, hs, c, m) ==> x in s && ToBkt(hs[x], m) == c
    ensures forall x {:trigger x in s} :: x in s && ToBkt(hs[x], m) == c ==> x in Moved(s, hs, c, m)
    ensures NoDup(s) ==> NoDup(Moved(s, hs, c, m))
  {
    if s != [] {
      var t, x := s[..|s| - 1], s[|s| - 1];
      MovedItems(t, hs, c, m);
      assert s == t + [x];
      assert NoDup(s) ==> NoDup(t) && x !in t && x !in Moved(t, hs, c, m);
    }
  }

  /** What moves comes out in the reverse order. */
  lemma {:induction false} MovedReversed(s: seq<Item>, hs: Hashes, c: nat, m: nat, a: nat, b: nat) returns (i: nat, j: nat)
    requires m > 0 && (forall x :: x in s ==> x in hs) && a < b < |Moved(s, hs, c, m)|
    ensures j < i < |s| && s[i] == Moved(s, hs, c, m)[a] && s[j] == Moved(s, hs, c, m)[b]
  {
    var t, x := s[..|s| - 1], s[|s| - 1];
    hide ToBkt;
    if ToBkt(hs[x], m) != c {
      i, j := MovedReversed(t, hs, c, m, a, b);
    } else if a > 0 {
      i, j := MovedReversed(t, hs, c, m, a - 1, b - 1);
    } else {
      var y := Moved(t, hs, c, m)[b - 1];
      MovedItems(t, hs, c, m);
      assert y in Moved(t, hs, c, m);
      i := |s| - 1;
      j :| 0 <= j < |t| && t[j] == y;
    }
  }

  /** The new chains when the items of `s`, an old chain of bucket `i` of `n`, have moved. */
  ghost function Moving(s: seq<Item>, hs: Hashes, i: nat, n: nat, cs: seq<seq<Item>>): (cs': seq<seq<Item>>)
    requires |cs| == 2 * n && i < n && forall x :: x in s ==> x in hs
    ensures |cs'| == |cs|
  {
    cs[i := Moved(s, hs, i, 2 * n)][i + n := Moved(s, hs, i + n, 2 * n)]
  }

  lemma {:induction false} MovingStep(s: seq<Item>, k: nat, hs: Hashes, i: nat, log2: nat, bkt: nat, cs: seq<seq<Item>>)
    requires k < |s| && NoDup(s) && |cs| == 2 * Pow2(log2) && i < Pow2(log2)
    requires forall x :: x in s ==> x in hs && ToBkt(hs[x], Pow2(log2)) == i
    requires s[k] in s && bkt == ToBkt(hs[s[k]], |cs|)
    ensures bkt == i || bkt == i + Pow2(log2)
    ensures var now := Moving(s[..k], hs, i, Pow2(log2), cs);
            && s[k] !in now[bkt]
            && (now[bkt] != [] ==> now[bkt][0] in s)
            && Moving(s[..k + 1], hs, i, Pow2(log2), cs) == now[bkt := [s[k]] + now[bkt]]
  {
    hide ToBkt, Pow2, NoDup;
    var n, x, t := Pow2(log2), s[k], s[..k];
    var lo, hi, now := Moved(t, hs, i, 2 * n), Moved(t, hs, i + n, 2 * n), Moving(t, hs, i, n, cs);
    assert x !in t by { NoDupSplits(s, k); }
    ToBktSplits(hs[x], log2);
    assert now[bkt] == if bkt == i then lo else hi;
    MovedItems(t, hs, bkt, 2 * n);
    assert now[bkt] != [] ==> now[bkt][0] in now[bkt];
    assert s[..k + 1][..k] == t;
    assert Moved(s[..k + 1], hs, i, 2 * n) == if bkt == i then [x] + lo else lo;
    assert Moved(s[..k + 1], hs, i + n, 2 * n) == if bkt == i then hi else [x] + hi;
  }

  ghost function Lens(cs: seq<seq<Item>>): (r: seq<nat>)
    ensures |r| == |cs| && forall i :: 0 <= i < |r| ==> r[i] == |cs[i]|
  {
    seq(|cs|, i requires 0 <= i < |cs| => |cs[i]|)
  }

  lemma {:induction false} OneLonger(cs: seq<seq<Item>>, b: nat, x: Item, ideal: nat)
    requires b < |cs|
    ensures var cs' := cs[b := [x] + cs[b]];
            && Lens(cs') == Lens(cs)[b := |cs[b]| + 1]
            && Sum(Lens(cs')) == Sum(Lens(cs)) + 1
            && Sum(Excesses(Lens(cs'), ideal)) == Sum(Excesses(Lens(cs), ideal)) + (if |cs[b]| >= ideal then 1 else 0)
  {
    var cs' := cs[b := [x] + cs[b]];
    var n, e := |cs[b]|, Excesses(Lens(cs), ideal);
    assert Lens(cs') == Lens(cs)[b := n + 1];
    SumUpdate(Lens(cs), b, n + 1);
    assert Excesses(Lens(cs'), ideal) == e[b := Excess(n + 1, ideal)];
    SumUpdate(e, b, Excess(n + 1, ideal));
  }

  ghost predicate Mults(bs: seq<Bucket>, ideal: nat)
    requires ideal > 0
  {
    forall c {:trigger bs[c]} :: 0 <= c < |bs| ==> bs[c].expandMult == ExpandMult(bs[c].count, ideal)
  }

  /** The new buckets `bs` and the links `l` represent the chains `cs`, with the statistics of an expansion. */
  ghost predicate Rehashed(bs: seq<Bucket>, l: Links, cs: seq<seq<Item>>, hs: Hashes, ideal: nat, nonideal: nat)
    requires ideal > 0
  {
    Threaded(bs, l, cs, hs) && Mults(bs, ideal) && nonideal == Sum(Excesses(Lens(cs), ideal))
  }

  method LinkFront(x: Item, h: Item?, ghost items: set<Item>)
    requires x in items && x != h && (h != null ==> h in items)
    modifies items`hhPrev, items`hhNext
    ensures BktLinks(items) == PushLinks(old(BktLinks(items)), x, h)
  {
    x.hhNext := h;
    x.hhPrev := null;
    if h != null {
      h.hhPrev := x;
    }
  }

  method MoveOne(nb: array<Bucket>, x: Item, ideal: nat, nonideal: nat, ghost cs: seq<seq<Item>>, ghost hs: Hashes)
    returns (nonideal': nat, ghost cs': seq<seq<Item>>)
    requires ideal > 0 && Rehashed(nb[..], BktLinks(hs.Keys), cs, hs, ideal, nonideal)
    requires x in hs && hs[x] == x.hashv && x !in cs[ToBkt(hs[x], |cs|)]
    modifies nb, hs.Keys`hhPrev, hs.Keys`hhNext
    ensures var bkt := ToBkt(hs[x], |cs|);
            && cs' == cs[bkt := [x] + cs[bkt]]
            && (cs[bkt] != [] ==> cs[bkt][0] in hs)
            && BktLinks(hs.Keys) == PushLinks(old(BktLinks(hs.Keys)), x, At(cs[bkt], 0))
    ensures Rehashed(nb[..], BktLinks(hs.Keys), cs', hs, ideal, nonideal') && Sum(Lens(cs')) == Sum(Lens(cs)) + 1
  {
    var bkt := ToBkt(x.hashv, nb.Length);
    var b := nb[bkt];
    b := b.(count := b.count + 1);
    nonideal' := nonideal;
    if b.count > ideal {
      nonideal' := nonideal' + 1;
      QuotientIsDiv(b.count, ideal);
      b := b.(expandMult := b.count / ideal);
    }
    cs' := cs[bkt := [x] + cs[bkt]];
    PushThreaded(nb[..], BktLinks(hs.Keys), cs, hs, bkt, x, b.(hhHead := x));
    OneLonger(cs, bkt, x, ideal);
    assert cs[bkt] != [] ==> cs[bkt][0] in cs[bkt];
    LinkFront(x, b.hhHead, hs.Keys);
    nb[bkt] := b.(hhHead := x);
    assert nb[..] == old(nb[..])[bkt := b.(hhHead := x)];
  }

  function MultsOf(bs: seq<Bucket>): (r: seq<nat>)
    ensures |r| == |bs| && forall i :: 0 <= i < |r| ==> r[i] == bs[i].expandMult
  {
    seq(|bs|, i requires 0 <= i < |bs| => bs[i].expandMult)
  }

  /** The bucket half of a table with `n` == 2^`log2` buckets holds exactly the items that `hs` hashes. */
  ghost predicate Holds(n: nat, log2: nat, bs: seq<Bucket>, l: Links, cs: seq<seq<Item>>, hs: Hashes) {
    && n == |cs| == Pow2(log2) && l.Keys == hs.Keys
    && Threaded(bs, l, cs, hs)
    && Covered(cs, hs)
  }

  /** The same when `add` is in `hs` already but on no chain yet. */
  ghost predicate HoldsAllBut(n: nat, log2: nat, bs: seq<Bucket>, l: Links, cs: seq<seq<Item>>, hs: Hashes, add: Item) {
    && n == |cs| == Pow2(log2) && l.Keys == hs.Keys
    && Threaded(bs, l, cs, hs)
    && Covered(cs, hs - {add})
    && add in hs && add !in cs[ToBkt(hs[add], |cs|)]
  }

  lemma {:induction false} HoldsNew(n: nat, log2: nat, bs: seq<Bucket>, l: Links, cs: seq<seq<Item>>, hs: Hashes,
                                    add: Item, l': Links, hs': Hashes)
    requires Holds(n, log2, bs, l, cs, hs) && add !in hs
    requires hs'.Keys == l'.Keys == hs.Keys + {add}
    requires forall x {:trigger x in hs} :: x in hs ==> hs'[x] == hs[x] && l'[x] == l[x]
    ensures HoldsAllBut(n, log2, bs, l', cs, hs', add) && |bs| == |cs| == n > 0
  {
    MoreItems(bs, l, l', cs, hs, hs');
    forall x {:trigger x in hs' - {add}} | x in hs' - {add}
      ensures x in cs[ToBkt(hs'[x], |cs|)]
    {
      assert x in hs;
    }
  }

  lemma {:induction false} HoldsOneMore(n: nat, log2: nat, bs: seq<Bucket>, l: Links, cs: seq<seq<Item>>, hs: Hashes,
                                        add: Item, bkt: nat, b: Bucket)
    requires HoldsAllBut(n, log2, bs, l, cs, hs, add) && |bs| == |cs| == n > 0
    requires bkt == ToBkt(hs[add], n) && b == bs[bkt].(hhHead := add, count := bs[bkt].count + 1)
    ensures var h := bs[bkt].hhHead;
            && (h != null ==> h in l && h != add)
            && Holds(n, log2, bs[bkt := b], PushLinks(l, add, h), cs[bkt := [add] + cs[bkt]], hs)
    ensures Lens(cs[bkt := [add] + cs[bkt]]) == Lens(cs)[bkt := Lens(cs)[bkt] + 1]
    ensures Sum(Lens(cs[bkt := [add] + cs[bkt]])) == Sum(Lens(cs)) + 1
    ensures MultsOf(bs[bkt := b]) == MultsOf(bs) && b.count == |cs[bkt]| + 1
  {
    hide ToBkt, Linked;
    var cs' := cs[bkt := [add] + cs[bkt]];
    PushThreaded(bs, l, cs, hs, bkt, add, b);
    OneLonger(cs, bkt, add, 0);
    assert cs[bkt] != [] ==> cs[bkt][0] in cs[bkt];
    forall x {:trigger x in hs} | x in hs
      ensures x in cs'[ToBkt(hs[x], |cs'|)]
    {
      assert x != add ==> x in hs - {add};
    }
  }

  lemma {:induction false} HoldsOneLess(n: nat, log2: nat, bs: seq<Bucket>, l: Links, cs: seq<seq<Item>>, hs: Hashes,
                                        del: Item, bkt: nat, k: nat, b: Bucket)
    requires Holds(n, log2, bs, l, cs, hs) && del in hs && bkt == ToBkt(hs[del], n) && |bs| == |cs| == n
    requires k < |cs[bkt]| && cs[bkt][k] == del
    requires b == bs[bkt].(count := bs[bkt].count - 1, hhHead := if bs[bkt].hhHead == del then l[del].next else bs[bkt].hhHead)
    requires del in l && (l[del].prev != null ==> l[del].prev in l) && (l[del].next != null ==> l[del].next in l)
    ensures Holds(n, log2, bs[bkt := b], RemoveLinks(l, del) - {del}, cs[bkt := Without(cs[bkt], del)], hs - {del})
  {
    hide ToBkt;
    var cs', l' := cs[bkt := Without(cs[bkt], del)], RemoveLinks(l, del);
    RemoveLinked(l, cs[bkt], k);
    WithoutItems(cs[bkt], k);
    RemoveThreaded(bs, l, cs, hs, bkt, k, b);
    forall c | 0 <= c < |cs'|
      ensures Linked(l' - {del}, cs'[c])
    {
      var s := cs'[c];
      forall i | 0 <= i < |s|
        ensures s[i] in l' && s[i] in l' - {del} && l'[s[i]] == (l' - {del})[s[i]]
      {
        assert s[i] in cs'[c];
      }
      LinkedKept(l', l' - {del}, s);
    }
  }

  lemma {:induction false} OneShorter(bs: seq<Bucket>, cs: seq<seq<Item>>, bkt: nat, k: nat, b: Bucket)
    requires Heads(bs, cs) && bkt < |cs| && k < |cs[bkt]| && NoDup(cs[bkt]) && b.expandMult == bs[bkt].expandMult
    ensures var cs' := cs[bkt := Without(cs[bkt], cs[bkt][k])];
            && Lens(cs') == Lens(cs)[bkt := Lens(cs)[bkt] - 1]
            && Sum(Lens(cs')) == Sum(Lens(cs)) - 1
            && MultsOf(bs[bkt := b]) == MultsOf(bs)
  {
    WithoutAt(cs[bkt], k);
    var cs' := cs[bkt := Without(cs[bkt], cs[bkt][k])];
    assert Lens(cs') == Lens(cs)[bkt := Lens(cs)[bkt] - 1];
    SumUpdate(Lens(cs), bkt, |cs[bkt]| - 1);
  }

  /** All that taking `del` off its chain changes and keeps. */
  lemma {:induction false} Unchained(n: nat, log2: nat, bs: seq<Bucket>, l: Links, cs: seq<seq<Item>>, hs: Hashes,
                                     del: Item, bkt: nat)
    requires Holds(n, log2, bs, l, cs, hs) && del in hs && n > 0 && bkt == ToBkt(hs[del], n)
    ensures bkt < |cs| == |bs| && 0 < bs[bkt].count == Lens(cs)[bkt]
    ensures del in l && l[del].prev != del && l[del].next != del
    ensures (l[del].prev != null ==> l[del].prev in l) && (l[del].next != null ==> l[del].next in l)
    ensures var b := bs[bkt].(count := bs[bkt].count - 1, hhHead := if bs[bkt].hhHead == del then l[del].next else bs[bkt].hhHead);
            var cs' := cs[bkt := Without(cs[bkt], del)];
            && Holds(n, log2, bs[bkt := b], RemoveLinks(l, del) - {del}, cs', hs - {del})
            && Lens(cs') == Lens(cs)[bkt := Lens(cs)[bkt] - 1]
            && Sum(Lens(cs')) == Sum(Lens(cs)) - 1
            && MultsOf(bs[bkt := b]) == MultsOf(bs)
  {
    hide ToBkt;
    assert del in cs[bkt];
    var k :| 0 <= k < |cs[bkt]| && cs[bkt][k] == del;
    RemoveLinked(l, cs[bkt], k);
    var b := bs[bkt].(count := bs[bkt].count - 1, hhHead := if bs[bkt].hhHead == del then l[del].next else bs[bkt].hhHead);
    HoldsOneLess(n, log2, bs, l, cs, hs, del, bkt, k, b);
    OneShorter(bs, cs, bkt, k, b);
  }

  /** What the walk along the old chain `s` of bucket `i` knows when its first `k` items have moved: the links
      were `l0` before the walk and are `l` now. */
  ghost predicate Walked(l0: Links, l: Links, s: seq<Item>, k: nat, hs: Hashes) {
    && l0.Keys == l.Keys == hs.Keys && k <= |s|
    && (forall j {:trigger s[j]} :: k <= j < |s| ==> s[j] in l && l[s[j]].next == At(s, j + 1))
    && (forall x {:trigger x in s} {:trigger l[x]} :: x in l && x !in s ==> l[x] == l0[x])
  }

  lemma {:induction false} WalkStep(l0: Links, l: Links, s: seq<Item>, k: nat, hs: Hashes, h: Item?)
    requires Walked(l0, l, s, k, hs) && k < |s| && NoDup(s) && s[k] in s
    requires h != null ==> h in s && h in l
    ensures Walked(l0, PushLinks(l, s[k], h), s, k + 1, hs)
  {
  }

  method MoveChain(first: Item?, nb: array<Bucket>, ideal: nat, nonideal: nat, ghost hs: Hashes, ghost log2: nat,
                   ghost i: nat,
                   ghost s: seq<Item>, ghost cs: seq<seq<Item>>)
    returns (nonideal': nat, ghost cs': seq<seq<Item>>)
    requires ideal > 0 && |cs| == 2 * Pow2(log2) && i < Pow2(log2) && Hashed(hs)
    requires forall x {:trigger x in s} :: x in s ==> x in hs && ToBkt(hs[x], Pow2(log2)) == i
    requires Linked(BktLinks(hs.Keys), s) && first == At(s, 0)
    requires Rehashed(nb[..], BktLinks(hs.Keys), cs, hs, ideal, nonideal) && cs[i] == cs[i + Pow2(log2)] == []
    modifies nb, hs.Keys`hhPrev, hs.Keys`hhNext
    ensures cs' == Moving(s, hs, i, Pow2(log2), cs)
    ensures Walked(old(BktLinks(hs.Keys)), BktLinks(hs.Keys), s, |s|, hs)
    ensures Rehashed(nb[..], BktLinks(hs.Keys), cs', hs, ideal, nonideal')
    ensures Sum(Lens(cs')) == Sum(Lens(cs)) + |s|
  {
    var thh := first;
    ghost var l0, k := BktLinks(hs.Keys), 0;
    assert s[..0] == [];
    assert cs == Moving([], hs, i, Pow2(log2), cs);
    cs' := cs;
    nonideal' := nonideal;
    while thh != null
      invariant k <= |s| && thh == At(s, k)
      invariant Walked(l0, BktLinks(hs.Keys), s, k, hs)
      invariant cs' == Moving(s[..k], hs, i, Pow2(log2), cs)
      invariant Rehashed(nb[..], BktLinks(hs.Keys), cs', hs, ideal, nonideal')
      invariant Sum(Lens(cs')) == Sum(Lens(cs)) + k
      decreases |s| - k
    {
      var nxt := thh.hhNext;
      ghost var bkt, l := ToBkt(hs[thh], |cs|), BktLinks(hs.Keys);
      assert thh in s;
      MovingStep(s, k, hs, i, log2, bkt, cs);
      ghost var h := At(cs'[bkt], 0);
      nonideal', cs' := MoveOne(nb, thh, ideal, nonideal', cs', hs);
      WalkStep(l0, l, s, k, hs, h);
      thh := nxt;
      k := k + 1;
    }
    assert s[..k] == s;
  }

  ghost function Origin(c: nat, n: nat): (j: nat) {
    if c < n then c else c - n
  }

  /** The chains that doubling the buckets makes of `cs`. */
  ghost predicate Doubled(cs': seq<seq<Item>>, cs: seq<seq<Item>>, hs: Hashes) {
    && Slotted(cs, hs)
    && |cs'| == 2 * |cs|
    && forall c {:trigger cs'[c]} :: 0 <= c < |cs'| ==> cs'[c] == Moved(cs[Origin(c, |cs|)], hs, c, |cs'|)
  }

  /** The items of old bucket b are those of the new buckets b and b + |cs|. */
  lemma {:induction false} DoubledMoves(cs': seq<seq<Item>>, cs: seq<seq<Item>>, hs: Hashes, log2: nat, b: nat, x: Item)
    requires Doubled(cs', cs, hs) && |cs| == Pow2(log2) && b < |cs|
    ensures x in cs[b] <==> x in cs'[b] || x in cs'[b + |cs|]
  {
    assert cs[b] == cs[Origin(b, |cs|)] == cs[Origin(b + |cs|, |cs|)];
    forall y | y in cs[b]
      ensures y in hs && ToBkt(hs[y], |cs|) == b
    {
    }
    MovedItems(cs[b], hs, b, |cs'|);
    MovedItems(cs[b], hs, b + |cs|, |cs'|);
    if x in cs[b] {
      ToBktSplits(hs[x], log2);
    }
  }

  lemma {:induction false} DoubledHolds(n: nat, log2: nat, bs: seq<Bucket>, l: Links, cs: seq<seq<Item>>, hs: Hashes,
                                        bs': seq<Bucket>, l': Links, cs': seq<seq<Item>>)
    requires Holds(n, log2, bs, l, cs, hs) && Doubled(cs', cs, hs) && Threaded(bs', l', cs', hs) && l'.Keys == hs.Keys
    ensures Holds(2 * n, log2 + 1, bs', l', cs', hs)
  {
    DoubledCovers(cs', cs, hs, log2);
  }

  lemma {:induction false} DoubledCovers(cs': seq<seq<Item>>, cs: seq<seq<Item>>, hs: Hashes, log2: nat)
    requires Doubled(cs', cs, hs) && |cs| == Pow2(log2) && Covered(cs, hs)
    ensures Covered(cs', hs)
  {
    forall x {:trigger x in hs} | x in hs
      ensures x in cs'[ToBkt(hs[x], |cs'|)]
    {
      var b, c := ToBkt(hs[x], |cs|), ToBkt(hs[x], |cs'|);
      ToBktSplits(hs[x], log2);
      assert x in cs[b];
      assert cs'[c] == Moved(cs[b], hs, c, |cs'|);
      MovedItems(cs[b], hs, c, |cs'|);
    }
  }

  /** What the expansion knows when the old chains before `i` have moved. */
  ghost predicate HalfDoubled(cs': seq<seq<Item>>, cs: seq<seq<Item>>, hs: Hashes, i: nat) {
    && Slotted(cs, hs)
    && i <= |cs| && |cs'| == 2 * |cs|
    && forall c {:trigger cs'[c]} :: 0 <= c < |cs'| ==>
         cs'[c] == if Origin(c, |cs|) < i then Moved(cs[Origin(c, |cs|)], hs, c, |cs'|) else []
  }

  lemma {:induction false} RestLinked(l: Links, l': Links, cs: seq<seq<Item>>, hs: Hashes, i: nat)
    requires Slotted(cs, hs) && i < |cs|
    requires forall j {:trigger cs[j]} :: i <= j < |cs| ==> Linked(l, cs[j])
    requires Walked(l, l', cs[i], |cs[i]|, hs)
    ensures forall j {:trigger cs[j]} :: i < j < |cs| ==> Linked(l', cs[j])
  {
    forall j | i < j < |cs|
      ensures Linked(l', cs[j])
    {
      var s := cs[j];
      forall k | 0 <= k < |s|
        ensures s[k] in l && s[k] in l' && l[s[k]] == l'[s[k]]
      {
        assert s[k] in cs[j] && s[k] !in cs[i];
      }
      LinkedKept(l, l', s);
    }
  }

  lemma {:induction false} NextDoubled(cs': seq<seq<Item>>, cs: seq<seq<Item>>, hs: Hashes, i: nat)
    requires HalfDoubled(cs', cs, hs, i) && i < |cs|
    ensures forall x {:trigger x in cs[i]} :: x in cs[i] ==> x in hs && ToBkt(hs[x], |cs|) == i
    ensures cs'[i] == cs'[i + |cs|] == []
    ensures HalfDoubled(Moving(cs[i], hs, i, |cs|, cs'), cs, hs, i + 1)
  {
    var next := Moving(cs[i], hs, i, |cs|, cs');
    assert cs'[i] == [] && cs'[i + |cs|] == [];
    forall c | 0 <= c < |next|
      ensures next[c] == if Origin(c, |cs|) < i + 1 then Moved(cs[Origin(c, |cs|)], hs, c, |next|) else []
    {
      assert next[c] == if c == i || c == i + |cs| then Moved(cs[i], hs, c, |next|) else cs'[c];
    }
  }

  lemma {:induction false} AllMoved(cs': seq<seq<Item>>, cs: seq<seq<Item>>, hs: Hashes)
    requires HalfDoubled(cs', cs, hs, |cs|)
    ensures Doubled(cs', cs, hs) && |cs'| == 2 * |cs|
  {
  }

  lemma {:induction false} NothingMoved(bs: seq<Bucket>, l: Links, cs: seq<seq<Item>>, hs: Hashes, ideal: nat)
    returns (cs': seq<seq<Item>>)
    requires ideal > 0 && Slotted(cs, hs)
    requires |bs| == 2 * |cs| && forall c :: 0 <= c < |bs| ==> bs[c] == Bucket(null, 0, 0)
    ensures Rehashed(bs, l, cs', hs, ideal, 0) && HalfDoubled(cs', cs, hs, 0) && Sum(Lens(cs')) == 0
  {
    cs' := seq(2 * |cs|, _ => []);
    SumConst(Lens(cs'), 0);
    SumConst(Excesses(Lens(cs'), ideal), 0);
  }

  method Redistribute(ob: array<Bucket>, ideal: nat, ghost cs: seq<seq<Item>>, ghost hs: Hashes, ghost log2: nat)
    returns (nb: array<Bucket>, nonideal: nat, ghost cs': seq<seq<Item>>)
    requires ideal > 0 && Threaded(ob[..], BktLinks(hs.Keys), cs, hs) && Hashed(hs) && |cs| == Pow2(log2)
    modifies hs.Keys`hhPrev, hs.Keys`hhNext
    ensures fresh(nb) && Rehashed(nb[..], BktLinks(hs.Keys), cs', hs, ideal, nonideal)
    ensures Doubled(cs', cs, hs) && |cs'| == 2 * |cs| && Sum(Lens(cs')) == Sum(Lens(cs))
  {
    hide Slotted, Mults, Linked, HalfDoubled, Doubled, Walked, Rehashed, Moving, Moved, Excesses, Hashed, BktLinks;
    var n := ob.Length;
    nb := new Bucket[2 * n](_ => Bucket(null, 0, 0));
    cs' := NothingMoved(nb[..], BktLinks(hs.Keys), cs, hs, ideal);
    nonideal := 0;
    var i := 0;
    while i < n
      invariant i <= n && HalfDoubled(cs', cs, hs, i)
      invariant forall j {:trigger cs[j]} :: i <= j < n ==> Linked(BktLinks(hs.Keys), cs[j])
      invariant Rehashed(nb[..], BktLinks(hs.Keys), cs', hs, ideal, nonideal)
      invariant Sum(Lens(cs')) == Sum(Lens(cs)[..i])
    {
      SumPrefix(Lens(cs), i);
      ghost var l := BktLinks(hs.Keys);
      NextDoubled(cs', cs, hs, i);
      nonideal, cs' := MoveChain(ob[i].hhHead, nb, ideal, nonideal, hs, log2, i, cs[i], cs');
      RestLinked(l, BktLinks(hs.Keys), cs, hs, i);
      i := i + 1;
    }
    assert Lens(cs)[..n] == Lens(cs);
    AllMoved(cs', cs, hs);
  }
}
