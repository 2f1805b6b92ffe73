/** Hash handles and doubly linked lists of them. A handle is on two lists at once; both kinds of list obey the
    same laws, which are stated here on snapshots of the links so that they say nothing about the heap. */
module Handles {
  import opened Seqs
  import opened Words

  /** The bytes that the key pointer and the key length of a handle delimit. */
  type Key = seq<bv8>

  class Item {
    var key: Key
    var hashv: uint32
    var prev: Item?
    var next: Item?
    var hhPrev: Item?
    var hhNext: Item?

    constructor (key: Key)
      ensures this.key == key
    {
      this.key := key;
      hashv, prev, next, hhPrev, hhNext := 0, null, null, null, null;
    }
  }

  datatype Link = Link(prev: Item?, next: Item?)

  type Links = map<Item, Link>

  /** `l` says what the insertion-order links of its items say. */
  ghost predicate AppReflected(l: Links)
    reads l.Keys`prev, l.Keys`next
  {
    forall x {:trigger x in l} {:trigger l[x]} :: x in l ==> l[x] == Link(x.prev, x.next)
  }

  ghost function BktLinks(items: set<Item>): (l: Links)
    reads items`hhPrev, items`hhNext
  {
    map x | x in items :: Link(x.hhPrev, x.hhNext)
  }

  function At(s: seq<Item>, i: int): (x: Item?) {
    if 0 <= i < |s| then s[i] else null
  }

  /** The links of the items of `s` thread them in the order of `s`, without a cycle and to the very end. */
  ghost predicate Linked(l: Links, s: seq<Item>) {
    && NoDup(s)
    && forall i {:trigger l[s[i]]} {:trigger s[i] in l} :: 0 <= i < |s| ==>
         s[i] in l && l[s[i]] == Link(At(s, i - 1), At(s, i + 1))
  }

  ghost predicate SameLinks(l: Links, l': Links, s: seq<Item>) {
    forall i {:trigger s[i] in l} {:trigger s[i] in l'} {:trigger l'[s[i]]} :: 0 <= i < |s| ==>
      s[i] in l && s[i] in l' && l[s[i]] == l'[s[i]]
  }

  lemma {:induction false} LinkedKept(l: Links, l': Links, s: seq<Item>)
    requires Linked(l, s) && SameLinks(l, l', s)
    ensures Linked(l', s)
  {
  }

  /** The links after `x` was put before the list that starts at `h`. */
  ghost function PushLinks(l: Links, x: Item, h: Item?): (l': Links)
    requires h != null ==> h in l
  {
    var l1 := l[x := Link(null, h)];
    if h == null then l1 else l1[h := l1[h].(prev := x)]
  }

  lemma {:induction false} PushLinked(l: Links, s: seq<Item>, x: Item)
    requires Linked(l, s) && x !in s
    ensures s != [] ==> s[0] in l
    ensures Linked(PushLinks(l, x, At(s, 0)), [x] + s)
  {
    var t := [x] + s;
    assert s != [] ==> s[0] in l;
    var l' := PushLinks(l, x, At(s, 0));
    forall i | 0 <= i < |t|
      ensures t[i] in l' && l'[t[i]] == Link(At(t, i - 1), At(t, i + 1))
    {
      if i > 0 {
        assert s[i - 1] in l && t[i] == s[i - 1];
      }
    }
  }

  /** The links after `x` was put after the list that ends in `e`. */
  ghost function AppendLinks(l: Links, x: Item, e: Item?): (l': Links)
    requires e != null ==> e in l
  {
    var l1 := l[x := Link(e, null)];
    if e == null then l1 else l1[e := l1[e].(next := x)]
  }

  lemma {:induction false} AppendLinked(l: Links, s: seq<Item>, x: Item)
    requires Linked(l, s) && x !in s
    ensures s != [] ==> s[|s| - 1] in l
    ensures Linked(AppendLinks(l, x, At(s, |s| - 1)), s + [x])
    ensures var e, l' := At(s, |s| - 1), AppendLinks(l, x, At(s, |s| - 1));
            && l'.Keys == l.Keys + {x} && l'[x] == Link(e, null)
            && (forall y {:trigger l'[y]} :: y in l && y != e && y != x ==> l'[y] == l[y])
            && (e != null ==> l'[e] == l[e].(next := x))
  {
    var t := s + [x];
    assert s != [] ==> s[|s| - 1] in l;
    var l' := AppendLinks(l, x, At(s, |s| - 1));
    forall i | 0 <= i < |t|
      ensures t[i] in l' && l'[t[i]] == Link(At(t, i - 1), At(t, i + 1))
    {
      if i < |s| {
        assert s[i] in l && t[i] == s[i];
      }
    }
  }

  /** The links after the neighbours of `x` were joined. */
  ghost function RemoveLinks(l: Links, x: Item): (l': Links)
    requires x in l && (l[x].prev != null ==> l[x].prev in l) && (l[x].next != null ==> l[x].next in l)
  {
    var p, n := l[x].prev, l[x].next;
    var l1 := if p == null then l else l[p := l[p].(next := n)];
    if n == null then l1 else l1[n := l1[n].(prev := p)]
  }

  lemma {:induction false} RemoveLinked(l: Links, s: seq<Item>, k: nat)
    requires Linked(l, s) && k < |s|
    ensures s[k] in l && l[s[k]] == Link(At(s, k - 1), At(s, k + 1))
    ensures (k > 0 ==> s[k - 1] in l) && (k + 1 < |s| ==> s[k + 1] in l)
    ensures Linked(RemoveLinks(l, s[k]), Without(s, s[k]))
    ensures |Without(s, s[k])| == |s| - 1
    ensures At(Without(s, s[k]), 0) == if k == 0 then At(s, 1) else s[0]
    ensures At(Without(s, s[k]), |s| - 2) == if k + 1 == |s| then At(s, k - 1) else s[|s| - 1]
  {
    WithoutAt(s, k);
    WithoutItems(s, k);
    var t := s[..k] + s[k + 1..];
    assert s[k] in l && (k > 0 ==> s[k - 1] in l) && (k + 1 < |s| ==> s[k + 1] in l);
    var l' := RemoveLinks(l, s[k]);
    forall i | 0 <= i < |t|
      ensures t[i] in l' && l'[t[i]] == Link(At(t, i - 1), At(t, i + 1))
    {
      var j := if i < k then i else i + 1;
      assert s[j] in l && t[i] == s[j];
    }
  }

  /** The links without the item that was removed. */
  lemma {:induction false} RemoveForgets(l: Links, s: seq<Item>, k: nat)
    requires Linked(l, s) && k < |s|
    ensures s[k] in l && (l[s[k]].prev != null ==> l[s[k]].prev in l) && (l[s[k]].next != null ==> l[s[k]].next in l)
    ensures Linked(RemoveLinks(l, s[k]) - {s[k]}, Without(s, s[k]))
  {
    RemoveLinked(l, s, k);
    WithoutItems(s, k);
    var t, l' := Without(s, s[k]), RemoveLinks(l, s[k]);
    forall i | 0 <= i < |t|
      ensures t[i] in l' && t[i] in l' - {s[k]} && l'[t[i]] == (l' - {s[k]})[t[i]]
    {
      assert t[i] in t;
    }
    LinkedKept(l', l' - {s[k]}, t);
  }

  /** The item a scan of `s` for `key` stops at. */
  ghost function Lookup(s: seq<Item>, key: Key): (x: Item?)
    reads s`key
  {
    if s == [] then null else if s[0].key == key then s[0] else Lookup(s[1..], key)
  }

  lemma {:induction false} LookupFinds(s: seq<Item>, key: Key) returns (k: nat)
    ensures var x := Lookup(s, key);
            if x == null then k == |s| && forall j {:trigger s[j]} :: 0 <= j < |s| ==> s[j].key != key
            else k < |s| && x == s[k] && s[k].key == key && forall j {:trigger s[j]} :: 0 <= j < k ==> s[j].key != key
  {
    k := 0;
    if s != [] && s[0].key != key {
      var i := LookupFinds(s[1..], key);
      k := i + 1;
      forall j {:trigger s[j]} | 0 <= j < k
        ensures s[j].key != key
      {
        assert j > 0 ==> s[j] == s[1..][j - 1];
      }
    }
  }

  /** An item that was put in front is found before all others with its key. */
  lemma {:induction false} FrontFound(s: seq<Item>, add: Item)
    ensures Lookup([add] + s, add.key) == add
  {
    var k := LookupFinds([add] + s, add.key);
    assert ([add] + s)[0] == add;
  }

  /** All that taking `del` off the list `s` changes and keeps. */
  lemma {:induction false} Unlisted(l: Links, s: seq<Item>, del: Item)
    requires Linked(l, s) && del in s
    ensures del in l && l[del].prev != del && l[del].next != del
    ensures (l[del].prev != null ==> l[del].prev in l) && (l[del].next != null ==> l[del].next in l)
    ensures l[del] == Link(null, null) <==> s == [del]
    ensures RemoveLinks(l, del).Keys == l.Keys
    ensures l[del] != Link(null, null) ==> Without(s, del) != []
    ensures var t := Without(s, del);
            && Linked(RemoveLinks(l, del) - {del}, t) && |t| == |s| - 1
            && At(t, 0) == (if l[del].prev == null then l[del].next else s[0])
            && At(t, |t| - 1) == (if s[|s| - 1] == del then l[del].prev else s[|s| - 1])
            && (At(t, 0) != null <==> t != [])
    ensures NoDup(s)
  {
    var k :| 0 <= k < |s| && s[k] == del;
    RemoveLinked(l, s, k);
    RemoveForgets(l, s, k);
    WithoutItems(s, k);
  }
}
