/** The in-place mergesort of the insertion-order list: runs are cut out of the list, merged by relinking and
    appended to the list of the next pass. The bucket links are not touched. */
module UtHashSort {
  import opened Seqs
  import opened Handles
  import opened Chains
  import opened MergeSort
  import opened UtHash

  ghost predicate Separate(done: seq<Item>, p: seq<Item>, q: seq<Item>) {
    && NoDup(done) && NoDup(p) && NoDup(q)
    && (forall x {:trigger x in p} :: x in p ==> x !in done && x !in q)
    && (forall x {:trigger x in q} :: x in q ==> x !in done)
  }

  /** In the middle of a pass: `done` is the new list so far, `p` the rest of the left run, `q` the rest of the
      old list from the right run on. The last links of `done` and of `p` are stale. */
  ghost predicate Mid(l: Links, done: seq<Item>, p: seq<Item>, q: seq<Item>) {
    && Separate(done, p, q)
    && (forall i {:trigger l[done[i]]} {:trigger done[i] in l} :: 0 <= i < |done| ==>
          done[i] in l && l[done[i]].prev == At(done, i - 1) && (i + 1 < |done| ==> l[done[i]].next == done[i + 1]))
    && (forall i {:trigger l[p[i]]} {:trigger p[i] in l} :: 0 <= i < |p| ==>
          p[i] in l && (i + 1 < |p| ==> l[p[i]].next == p[i + 1]))
    && (forall i {:trigger l[q[i]]} {:trigger q[i] in l} :: 0 <= i < |q| ==> q[i] in l && l[q[i]].next == At(q, i + 1))
  }

  /** The links after `e` was appended to the new list that ends in `tail`. */
  ghost function EmitLinks(l: Links, tail: Item?, e: Item): (l': Links)
    requires e in l && (tail != null ==> tail in l)
  {
    var l1 := if tail == null then l else l[tail := l[tail].(next := e)];
    l1[e := l1[e].(prev := tail)]
  }

  lemma {:induction false} EmitLeft(l: Links, done: seq<Item>, p: seq<Item>, q: seq<Item>)
    requires Mid(l, done, p, q) && p != []
    ensures p[0] in l && (At(done, |done| - 1) != null ==> At(done, |done| - 1) in l)
    ensures Mid(EmitLinks(l, At(done, |done| - 1), p[0]), done + [p[0]], p[1..], q)
  {
    var e, d, p' := p[0], done + [p[0]], p[1..];
    assert e in p && e in l && (done != [] ==> done[|done| - 1] in l);
    var l' := EmitLinks(l, At(done, |done| - 1), e);
    assert Separate(d, p', q) by {
      assert forall x :: x in p' ==> x in p;
    }
    forall i | 0 <= i < |d|
      ensures d[i] in l' && l'[d[i]].prev == At(d, i - 1) && (i + 1 < |d| ==> l'[d[i]].next == d[i + 1])
    {
      assert i < |done| ==> done[i] in l && done[i] in done;
    }
    forall i | 0 <= i < |p'|
      ensures p'[i] in l' && (i + 1 < |p'| ==> l'[p'[i]].next == p'[i + 1])
    {
      assert p[i + 1] in l && p[i + 1] in p;
    }
    forall i | 0 <= i < |q|
      ensures q[i] in l' && l'[q[i]].next == At(q, i + 1)
    {
      assert q[i] in l && q[i] in q;
    }
  }

  lemma {:induction false} EmitRight(l: Links, done: seq<Item>, p: seq<Item>, q: seq<Item>)
    requires Mid(l, done, p, q) && q != []
    ensures q[0] in l && (At(done, |done| - 1) != null ==> At(done, |done| - 1) in l)
    ensures Mid(EmitLinks(l, At(done, |done| - 1), q[0]), done + [q[0]], p, q[1..])
  {
    var e, d, q' := q[0], done + [q[0]], q[1..];
    assert e in q && e in l && (done != [] ==> done[|done| - 1] in l);
    var l' := EmitLinks(l, At(done, |done| - 1), e);
    assert Separate(d, p, q') by {
      assert forall x :: x in q' ==> x in q;
    }
    forall i | 0 <= i < |d|
      ensures d[i] in l' && l'[d[i]].prev == At(d, i - 1) && (i + 1 < |d| ==> l'[d[i]].next == d[i + 1])
    {
      assert i < |done| ==> done[i] in l && done[i] in done;
    }
    forall i | 0 <= i < |p|
      ensures p[i] in l' && (i + 1 < |p| ==> l'[p[i]].next == p[i + 1])
    {
      assert p[i] in l && p[i] in p;
    }
    forall i | 0 <= i < |q'|
      ensures q'[i] in l' && l'[q'[i]].next == At(q', i + 1)
    {
      assert q[i + 1] in l && q[i + 1] in q;
    }
  }

  method Emit(list: Item?, tail: Item?, e: Item, ghost l: Links) returns (list': Item?, ghost l': Links)
    requires AppReflected(l) && e in l && (tail != null ==> tail in l) && tail != e
    modifies l.Keys`prev, l.Keys`next
    ensures list' == if tail == null then e else list
    ensures l' == EmitLinks(l, tail, e) && l'.Keys == l.Keys && AppReflected(l')
  {
    list' := list;
    if tail != null {
      tail.next := e;
    } else {
      list' := e;
    }
    e.prev := tail;
    l' := EmitLinks(l, tail, e);
  }

  /** What is still to be appended of the merge of `p` and the first `n` of `q`. */
  ghost function Rest(cmp: (Item, Item) -> int, p: seq<Item>, q: seq<Item>, n: nat): (r: seq<Item>) {
    Merge(cmp, p, Take(q, n))
  }

  lemma {:induction false} RestLeft(cmp: (Item, Item) -> int, p: seq<Item>, q: seq<Item>, n: nat)
    requires p != [] && (n == 0 || q == [] || cmp(p[0], q[0]) <= 0)
    ensures Rest(cmp, p, q, n) == [p[0]] + Rest(cmp, p[1..], q, n)
  {
    assert q != [] && n > 0 ==> Take(q, n)[0] == q[0];
    assert Merge(cmp, p[1..], []) == p[1..];
    assert p == [p[0]] + p[1..];
  }

  lemma {:induction false} RestRight(cmp: (Item, Item) -> int, p: seq<Item>, q: seq<Item>, n: nat)
    requires n > 0 && q != [] && (p == [] || cmp(p[0], q[0]) > 0)
    ensures Rest(cmp, p, q, n) == [q[0]] + Rest(cmp, p, q[1..], n - 1)
    ensures Drop(q, n) == Drop(q[1..], n - 1)
  {
    assert Take(q, n)[0] == q[0] && Take(q, n)[1..] == Take(q[1..], n - 1);
    assert Take(q, n) == [q[0]] + Take(q[1..], n - 1);
  }

  method MergeRun(p0: Item?, q0: Item?, psize0: nat, insize: nat, list0: Item?, tail0: Item?, cmp: (Item, Item) -> int,
                  ghost l0: Links, ghost done0: seq<Item>, ghost left: seq<Item>, ghost right: seq<Item>)
    returns (list: Item?, tail: Item?, q: Item?, ghost l: Links, ghost done: seq<Item>)
    requires AppReflected(l0) && Mid(l0, done0, left, right)
    requires |left| == psize0 && p0 == At(left, 0) && q0 == At(right, 0)
    requires list0 == At(done0, 0) && tail0 == At(done0, |done0| - 1)
    modifies l0.Keys`prev, l0.Keys`next
    ensures l.Keys == l0.Keys && AppReflected(l)
    ensures done == done0 + Merge(cmp, left, Take(right, insize))
    ensures Mid(l, done, [], Drop(right, insize)) && q == At(Drop(right, insize), 0)
    ensures list == At(done, 0) && tail == At(done, |done| - 1)
  {
    hide Mid, Merge, Take, Drop, EmitLinks, AppReflected;
    var p, psize, qsize, e := p0, psize0, insize, p0;
    ghost var ps, qs := left, right;
    list, tail, q, l, done := list0, tail0, q0, l0, done0;
    while psize > 0 || (qsize > 0 && q != null)
      invariant l.Keys == l0.Keys && AppReflected(l) && Mid(l, done, ps, qs)
      invariant |ps| == psize && (psize > 0 ==> p == At(ps, 0)) && q == At(qs, 0)
      invariant list == At(done, 0) && tail == At(done, |done| - 1)
      invariant done + Rest(cmp, ps, qs, qsize) == done0 + Rest(cmp, left, right, insize)
      invariant Drop(qs, qsize) == Drop(right, insize)
      decreases psize + |qs|
    {
      ghost var takeLeft := psize > 0 && (qsize == 0 || q == null || cmp(p, q) <= 0);
      NextOf(l, done, ps, qs);
      if takeLeft {
        EmitLeft(l, done, ps, qs);
        RestLeft(cmp, ps, qs, qsize);
      } else {
        EmitRight(l, done, ps, qs);
        RestRight(cmp, ps, qs, qsize);
      }
      if psize == 0 {
        e := q;
        q := q.next;
        qsize := qsize - 1;
      } else if qsize == 0 || q == null {
        e := p;
        p := p.next;
        psize := psize - 1;
      } else if cmp(p, q) <= 0 {
        e := p;
        p := p.next;
        psize := psize - 1;
      } else {
        e := q;
        q := q.next;
        qsize := qsize - 1;
      }
      list, l := Emit(list, tail, e, l);
      tail := e;
      if takeLeft {
        done, ps := done + [ps[0]], ps[1..];
      } else {
        done, qs := done + [qs[0]], qs[1..];
      }
    }
    RunDone(cmp, qs, qsize);
  }

  lemma {:induction false} NextOf(l: Links, done: seq<Item>, p: seq<Item>, q: seq<Item>)
    requires AppReflected(l) && Mid(l, done, p, q)
    ensures p != [] ==> p[0] in l && p[0] !in done && (|p| > 1 ==> p[0].next == p[1])
    ensures q != [] ==> q[0] in l && q[0] !in done && q[0].next == At(q, 1)
    ensures done != [] ==> done[|done| - 1] in l
  {
    assert p != [] ==> p[0] in p && p[0] in l;
    assert q != [] ==> q[0] in q && q[0] in l;
    assert done != [] ==> done[|done| - 1] in l;
  }

  lemma {:induction false} RunDone(cmp: (Item, Item) -> int, q: seq<Item>, n: nat)
    requires n == 0 || q == []
    ensures Rest(cmp, [], q, n) == [] && Drop(q, n) == q
  {
  }

  lemma {:induction false} CutMid(l: Links, done: seq<Item>, s: seq<Item>, w: nat)
    requires Mid(l, done, [], s)
    ensures Mid(l, done, Take(s, w), Drop(s, w))
  {
    var p, q := Take(s, w), Drop(s, w);
    assert s == p + q;
    forall i | 0 <= i < |p|
      ensures p[i] in l && (i + 1 < |p| ==> l[p[i]].next == p[i + 1])
    {
      assert p[i] == s[i] && s[i] in l;
    }
    forall i | 0 <= i < |q|
      ensures q[i] in l && l[q[i]].next == At(q, i + 1)
    {
      assert q[i] == s[|p| + i] && s[|p| + i] in l;
    }
    assert forall x :: x in p ==> x in s;
    assert forall x :: x in q ==> x in s;
  }

  /** Counting out the left run: at most `insize` items, and the item after them. */
  method CutRun(p: Item, insize: nat, ghost l: Links, ghost done: seq<Item>, ghost s: seq<Item>)
    returns (q: Item?, psize: nat)
    requires insize > 0 && AppReflected(l) && Mid(l, done, [], s) && s != [] && p == s[0]
    ensures psize == |Take(s, insize)| && q == At(Drop(s, insize), 0)
  {
    q, psize := p, 0;
    var i := 0;
    while i < insize
      invariant 0 <= i <= insize && psize == i < |s| && q == s[i]
    {
      psize := psize + 1;
      assert s[i] in l;
      q := q.next;
      if q == null {
        break;
      }
      i := i + 1;
    }
  }

  /** The two runs at the front of the rest of the list, cut off and merged. */
  method MergePair(p: Item, insize: nat, list0: Item?, tail0: Item?, cmp: (Item, Item) -> int,
                   ghost l0: Links, ghost done0: seq<Item>, ghost s: seq<Item>)
    returns (list: Item?, tail: Item?, q: Item?, ghost l: Links, ghost done: seq<Item>)
    requires insize > 0 && AppReflected(l0) && Mid(l0, done0, [], s) && s != [] && p == s[0]
    requires list0 == At(done0, 0) && tail0 == At(done0, |done0| - 1)
    modifies l0.Keys`prev, l0.Keys`next
    ensures l.Keys == l0.Keys && AppReflected(l)
    ensures done == done0 + Merge(cmp, Take(s, insize), Take(Drop(s, insize), insize))
    ensures Mid(l, done, [], Drop(s, 2 * insize)) && q == At(Drop(s, 2 * insize), 0)
    ensures list == At(done, 0) && tail == At(done, |done| - 1)
  {
    hide Mid, Merge, AppReflected;
    var psize;
    q, psize := CutRun(p, insize, l0, done0, s);
    CutMid(l0, done0, s, insize);
    assert Drop(Drop(s, insize), insize) == Drop(s, 2 * insize);
    list, tail, q, l, done := MergeRun(p, q, psize, insize, list0, tail0, cmp, l0, done0, Take(s, insize), Drop(s, insize));
  }

  lemma {:induction false} CloseList(l: Links, done: seq<Item>)
    requires Mid(l, done, [], []) && done != []
    ensures done[|done| - 1] in l
    ensures Linked(l[done[|done| - 1] := l[done[|done| - 1]].(next := null)], done)
  {
    var z := done[|done| - 1];
    assert z in l;
    var l' := l[z := l[z].(next := null)];
    forall i | 0 <= i < |done|
      ensures done[i] in l' && l'[done[i]] == Link(At(done, i - 1), At(done, i + 1))
    {
      assert done[i] in l;
    }
  }

  method Close(tail: Item, ghost l: Links, ghost done: seq<Item>) returns (ghost l': Links)
    requires AppReflected(l) && Mid(l, done, [], []) && tail == At(done, |done| - 1)
    modifies l.Keys`next
    ensures l'.Keys == l.Keys && AppReflected(l') && Linked(l', done)
  {
    hide Mid, Linked;
    CloseList(l, done);
    tail.next := null;
    l' := l[tail := l[tail].(next := null)];
  }

  method Pass(first: Item, insize: nat, cmp: (Item, Item) -> int, ghost l0: Links, ghost s: seq<Item>)
    returns (list: Item?, tail: Item?, nmerges: nat, ghost l: Links)
    requires insize > 0 && AppReflected(l0) && Mid(l0, [], [], s) && s != [] && first == s[0]
    modifies l0.Keys`prev, l0.Keys`next
    ensures l.Keys == l0.Keys && AppReflected(l)
    ensures var t := MergeRuns(cmp, s, insize);
            Linked(l, t) && list == At(t, 0) && tail == At(t, |t| - 1) && |t| == |s|
    ensures nmerges <= 1 <==> |s| <= 2 * insize
  {
    hide Mid, Merge, AppReflected, Linked, MergeRuns, Take, EmitLinks;
    var p: Item? := first;
    list, tail, nmerges, l := null, null, 0, l0;
    ghost var done, rest := [], s;
    while p != null
      invariant l.Keys == l0.Keys && AppReflected(l) && Mid(l, done, [], rest)
      invariant p == At(rest, 0) && list == At(done, 0) && tail == At(done, |done| - 1)
      invariant done + MergeRuns(cmp, rest, insize) == MergeRuns(cmp, s, insize)
      invariant rest == [] ==> done == MergeRuns(cmp, s, insize)
      invariant if nmerges == 0 then rest == s else if nmerges == 1 then rest == Drop(s, 2 * insize) else |s| > 2 * insize
      decreases |rest|
    {
      nmerges := nmerges + 1;
      ghost var was := done;
      list, tail, p, l, done := MergePair(p, insize, list, tail, cmp, l, done, rest);
      PairMerged(cmp, s, insize, was, rest, done);
      rest := Drop(rest, 2 * insize);
    }
    RunsContents(cmp, s, insize);
    l := Close(tail, l, done);
  }

  lemma {:induction false} PairMerged(cmp: (Item, Item) -> int, s: seq<Item>, w: nat, done: seq<Item>,
                                      rest: seq<Item>, done': seq<Item>)
    requires w > 0 && rest != [] && done + MergeRuns(cmp, rest, w) == MergeRuns(cmp, s, w)
    requires done' == done + Merge(cmp, Take(rest, w), Take(Drop(rest, w), w))
    ensures done' + MergeRuns(cmp, Drop(rest, 2 * w), w) == MergeRuns(cmp, s, w)
    ensures Drop(rest, 2 * w) == [] ==> done' == MergeRuns(cmp, s, w)
    ensures |Drop(rest, 2 * w)| < |rest|
  {
    hide Merge, MergeRuns, Take, Drop;
    var m, r := Merge(cmp, Take(rest, w), Take(Drop(rest, w), w)), MergeRuns(cmp, Drop(rest, 2 * w), w);
    OnePair(cmp, rest, w);
    assert done + (m + r) == (done + m) + r;
    if Drop(rest, 2 * w) == [] {
      assert r == [] by { NoRuns(cmp, w); }
    }
  }

  lemma {:induction false} OnePair(cmp: (Item, Item) -> int, s: seq<Item>, w: nat)
    requires w > 0 && s != []
    ensures MergeRuns(cmp, s, w) == Merge(cmp, Take(s, w), Take(Drop(s, w), w)) + MergeRuns(cmp, Drop(s, 2 * w), w)
    ensures |Drop(s, 2 * w)| < |s|
  {
    hide Merge;
  }

  lemma {:induction false} NoRuns(cmp: (Item, Item) -> int, w: nat)
    requires w > 0
    ensures MergeRuns(cmp, [], w) == []
  {
  }

  lemma {:induction false} WholeList(l: Links, s: seq<Item>)
    requires Linked(l, s)
    ensures Mid(l, [], [], s)
  {
  }

  lemma {:induction false} SameOrder(t: HashTable, s: seq<Item>)
    requires multiset(s) == multiset(t.order) && SameItems(t.order, t.app, t.hs)
    ensures SameItems(s, t.app, t.hs)
    ensures forall x {:trigger x in s} {:trigger x in t.order} :: x in s <==> x in t.order
  {
    forall x: Item
      ensures x in s <==> x in t.order
    {
      SameElements(s, t.order, x);
    }
  }

  /** The passes, from the linked list `s` on. */
  method SortList(first: Item, cmp: (Item, Item) -> int, ghost l0: Links, ghost s0: seq<Item>)
    returns (list: Item?, tail: Item?, ghost l: Links)
    requires AppReflected(l0) && Linked(l0, s0) && s0 != [] && first == s0[0]
    modifies l0.Keys`prev, l0.Keys`next
    ensures l.Keys == l0.Keys && AppReflected(l)
    ensures var t := BottomUp(cmp, s0, 1);
            Linked(l, t) && |t| == |s0| && list == t[0] && tail == t[|t| - 1]
  {
    hide Mid, Merge, AppReflected, Linked, MergeRuns, Take, Drop;
    var insize, looping := 1, true;
    list, tail, l := first, null, l0;
    ghost var s := s0;
    while looping
      invariant insize > 0 && l.Keys == l0.Keys && AppReflected(l) && Linked(l, s)
      invariant |s| == |s0| > 0 && list == s[0]
      invariant if looping then BottomUp(cmp, s, insize) == BottomUp(cmp, s0, 1)
                else s == BottomUp(cmp, s0, 1) && tail == s[|s| - 1]
      decreases looping, if |s| > 2 * insize then |s| - insize else 0
    {
      WholeList(l, s);
      var nmerges;
      list, tail, nmerges, l := Pass(list, insize, cmp, l, s);
      s := MergeRuns(cmp, s, insize);
      if nmerges <= 1 {
        looping := false;
      }
      insize := insize * 2;
    }
  }

  /** The list and its tail take their new places. */
  method SetEnds(t: HashTable, list: Item, tail: Item)
    requires t.Buckets(t.hs) && t.Room() && t.Grown()
    modifies t`head, t`tail
    ensures t.head == list && t.tail == tail && t.Buckets(t.hs) && t.Room() && t.Grown()
  {
    hide HashTable.Buckets, HashTable.Room, HashTable.Grown;
    t.tail := tail;
    t.head := list;
  }

  method Relist(t: HashTable, list: Item, tail: Item, ghost links: Links, ghost s: seq<Item>)
    requires t.numItems == |t.order| == Sum(Lens(t.chains)) && t.Buckets(t.hs) && t.Room() && t.Grown()
    requires SameItems(t.order, t.app, t.hs) && t.Stamped() && Hashed(t.hs)
    requires AppReflected(links) && links.Keys == t.app.Keys && Linked(links, s)
    requires multiset(s) == multiset(t.order) && |s| == |t.order| > 0 && list == s[0] && tail == s[|s| - 1]
    modifies t`head, t`tail, t`order, t`app
    ensures t.Sound() && t.head == list && t.order == s
  {
    hide Linked, AppReflected, HashTable.Buckets, HashTable.Room, HashTable.Grown, Sum, Lens, Hashed;
    SameOrder(t, s);
    assert SameItems(s, links, t.hs);
    assert forall x {:trigger x in s} :: x in s ==> x.hashv == t.hash(x.key);
    hide SameItems;
    SetEnds(t, list, tail);
    t.order, t.app := s, links;
    assert t.Stamped();
  }

  method SortNonempty(t: HashTable, cmp: (Item, Item) -> int)
    requires t.head != null && t.Sound()
    modifies t`head, t`tail, t`order, t`app, t.order`prev, t.order`next
    ensures t.head != null && t.Sound() && t.order == BottomUp(cmp, old(t.order), 1)
  {
    hide Linked, AppReflected, HashTable.Buckets, HashTable.Room, HashTable.Grown, HashTable.Stamped, Hashed, Sum, Lens, BottomUp;
    var list, tail;
    ghost var links, s := t.app, BottomUp(cmp, t.order, 1);
    BottomUpContents(cmp, t.order, 1);
    t.ListedItems();
    list, tail, links := SortList(t.head, cmp, t.app, t.order);
    Relist(t, list, tail, links, s);
  }

  lemma {:induction false} Arranged(cmp: (Item, Item) -> int, s: seq<Item>, t: seq<Item>)
    requires t == BottomUp(cmp, s, 1)
    ensures multiset(t) == multiset(s)
    ensures TotalPreorder(cmp, s) ==> Sorted(cmp, t) && forall x :: x in s ==> Class(cmp, x, t) == Class(cmp, x, s)
  {
    BottomUpContents(cmp, s, 1);
    if TotalPreorder(cmp, s) {
      SortsStably(cmp, s);
    }
  }

  lemma {:induction false} NothingArranged(cmp: (Item, Item) -> int)
    ensures BottomUp(cmp, [], 1) == []
  {
  }

  /** HASH_SRT: the insertion-order list becomes its stable sorted arrangement; the buckets stay as they are. */
  method Sort(t: HashTable, cmp: (Item, Item) -> int)
    requires t.Valid()
    modifies t`head, t`tail, t`order, t`app, t.order`prev, t.order`next
    ensures t.Valid() && t.order == BottomUp(cmp, old(t.order), 1)
    ensures multiset(t.order) == multiset(old(t.order))
    ensures t.chains == old(t.chains) && t.buckets[..] == old(t.buckets[..])
    ensures TotalPreorder(cmp, old(t.order)) ==>
              && Sorted(cmp, t.order)
              && forall x :: x in old(t.order) ==> Class(cmp, x, t.order) == Class(cmp, x, old(t.order))
  {
    hide HashTable.Sound, BottomUp, TotalPreorder, Sorted, Class;
    ghost var s := t.order;
    if t.head != null {
      SortNonempty(t, cmp);
    } else {
      NothingArranged(cmp);
    }
    Arranged(cmp, s, t.order);
  }
}
