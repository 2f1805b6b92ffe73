/** The bottom-up mergesort of the hash table on plain sequences: what one merge, one pass and the whole
    sequence of passes compute, and why the outcome is the stable sorted arrangement. */
module MergeSort {

  /** `cmp` orders the elements of `s` totally; elements may be equivalent without being equal. */
  ghost predicate TotalPreorder<T>(cmp: (T, T) -> int, s: seq<T>) {
    && (forall a, b {:trigger cmp(a, b)} :: a in s && b in s ==> cmp(a, b) <= 0 || cmp(b, a) <= 0)
    && (forall a, b, c {:trigger cmp(a, b), cmp(b, c)} ::
          a in s && b in s && c in s && cmp(a, b) <= 0 && cmp(b, c) <= 0 ==> cmp(a, c) <= 0)
  }

  ghost predicate Sorted<T>(cmp: (T, T) -> int, s: seq<T>) {
    forall i, j :: 0 <= i < j < |s| ==> cmp(s[i], s[j]) <= 0
  }

  function Take<T>(s: seq<T>, n: nat): (r: seq<T>) {
    if n <= |s| then s[..n] else s
  }

  function Drop<T>(s: seq<T>, n: nat): (r: seq<T>) {
    if n <= |s| then s[n..] else []
  }

  function Merge<T>(cmp: (T, T) -> int, p: seq<T>, q: seq<T>): (r: seq<T>)
    decreases |p| + |q|
  {
    if p == [] then q
    else if q == [] then p
    else if cmp(p[0], q[0]) <= 0 then [p[0]] + Merge(cmp, p[1..], q)
    else [q[0]] + Merge(cmp, p, q[1..])
  }

  /** One pass: consecutive pairs of runs of length `w` are merged. */
  function MergeRuns<T>(cmp: (T, T) -> int, s: seq<T>, w: nat): (r: seq<T>)
    requires w > 0
    decreases |s|
  {
    if s == [] then []
    else Merge(cmp, Take(s, w), Take(Drop(s, w), w)) + MergeRuns(cmp, Drop(s, 2 * w), w)
  }

  lemma {:induction false} MergeContents<T>(cmp: (T, T) -> int, p: seq<T>, q: seq<T>)
    ensures multiset(Merge(cmp, p, q)) == multiset(p) + multiset(q)
    ensures |Merge(cmp, p, q)| == |p| + |q|
    decreases |p| + |q|
  {
    if p != [] && q != [] {
      assert p == [p[0]] + p[1..] && q == [q[0]] + q[1..];
      if cmp(p[0], q[0]) <= 0 {
        MergeContents(cmp, p[1..], q);
      } else {
        MergeContents(cmp, p, q[1..]);
      }
    }
  }

  lemma {:induction false} RunsContents<T>(cmp: (T, T) -> int, s: seq<T>, w: nat)
    requires w > 0
    ensures multiset(MergeRuns(cmp, s, w)) == multiset(s) && |MergeRuns(cmp, s, w)| == |s|
    decreases |s|
  {
    if s != [] {
      var p, q, r := Take(s, w), Take(Drop(s, w), w), Drop(s, 2 * w);
      assert s == p + q + r;
      MergeContents(cmp, p, q);
      RunsContents(cmp, r, w);
    }
  }

  /** The passes of the sort, from runs of length `w` on. */
  function BottomUp<T>(cmp: (T, T) -> int, s: seq<T>, w: nat): (r: seq<T>)
    requires w > 0
    decreases if |s| > 2 * w then |s| - w else 0
  {
    if |s| <= 2 * w then MergeRuns(cmp, s, w)
    else RunsContents(cmp, s, w); BottomUp(cmp, MergeRuns(cmp, s, w), 2 * w)
  }

  lemma {:induction false} SameElements<T>(s: seq<T>, t: seq<T>, x: T)
    requires multiset(s) == multiset(t)
    ensures x in s <==> x in t
  {
    assert x in s <==> x in multiset(s);
    assert x in t <==> x in multiset(t);
  }

  lemma {:induction false} SortedCons<T>(cmp: (T, T) -> int, x: T, s: seq<T>)
    requires Sorted(cmp, s) && forall y :: y in s ==> cmp(x, y) <= 0
    ensures Sorted(cmp, [x] + s)
  {
  }

  lemma {:induction false} SortedHead<T>(cmp: (T, T) -> int, all: seq<T>, s: seq<T>)
    requires TotalPreorder(cmp, all) && Sorted(cmp, s) && s != [] && forall y :: y in s ==> y in all
    ensures Sorted(cmp, s[1..])
    ensures forall y :: y in s ==> cmp(s[0], y) <= 0
  {
    assert s[0] in s && cmp(s[0], s[0]) <= 0;
  }

  lemma {:induction false} MergeSorted<T>(cmp: (T, T) -> int, all: seq<T>, p: seq<T>, q: seq<T>)
    requires TotalPreorder(cmp, all) && Sorted(cmp, p) && Sorted(cmp, q)
    requires (forall y :: y in p ==> y in all) && (forall y :: y in q ==> y in all)
    ensures Sorted(cmp, Merge(cmp, p, q))
    decreases |p| + |q|
  {
    if p != [] && q != [] {
      SortedHead(cmp, all, p);
      SortedHead(cmp, all, q);
      var first := cmp(p[0], q[0]) <= 0;
      var x, p', q' := if first then p[0] else q[0], if first then p[1..] else p, if first then q else q[1..];
      MergeSorted(cmp, all, p', q');
      var r := Merge(cmp, p', q');
      forall y | y in r
        ensures cmp(x, y) <= 0
      {
        MergeContents(cmp, p', q');
        assert y in multiset(r);
        assert y in p' || y in q';
        assert p[0] in p && q[0] in q;
        assert y in p ==> cmp(p[0], y) <= 0;
        assert y in q ==> cmp(q[0], y) <= 0;
        assert cmp(p[0], q[0]) <= 0 || cmp(q[0], p[0]) <= 0;
      }
      SortedCons(cmp, x, r);
    }
  }

  ghost predicate RunsSorted<T>(cmp: (T, T) -> int, s: seq<T>, w: nat)
    requires w > 0
    decreases |s|
  {
    s == [] || (Sorted(cmp, Take(s, w)) && RunsSorted(cmp, Drop(s, w), w))
  }

  lemma {:induction false} PassSorts<T>(cmp: (T, T) -> int, all: seq<T>, s: seq<T>, w: nat)
    requires w > 0 && TotalPreorder(cmp, all) && (forall y :: y in s ==> y in all) && RunsSorted(cmp, s, w)
    ensures RunsSorted(cmp, MergeRuns(cmp, s, w), 2 * w)
    decreases |s|
  {
    hide Sorted, TotalPreorder, Merge;
    if s != [] {
      var p, q, r := Take(s, w), Take(Drop(s, w), w), Drop(s, 2 * w);
      assert s == p + q + r && Drop(Drop(s, w), w) == r;
      assert Sorted(cmp, q) by { EmptySorted(cmp); }
      MergeSorted(cmp, all, p, q);
      MergeContents(cmp, p, q);
      PassSorts(cmp, all, r, w);
      RunsContents(cmp, r, w);
      SplitAt(Merge(cmp, p, q), MergeRuns(cmp, r, w), 2 * w);
    }
  }

  lemma {:induction false} EmptySorted<T>(cmp: (T, T) -> int)
    ensures Sorted(cmp, [])
  {
  }

  lemma {:induction false} SplitAt<T>(m: seq<T>, rest: seq<T>, n: nat)
    requires |m| == n || (|m| <= n && rest == [])
    ensures Take(m + rest, n) == m && Drop(m + rest, n) == rest
  {
  }

  /** The elements of `s` that `cmp` does not tell from `x`, in their order. */
  function Class<T>(cmp: (T, T) -> int, x: T, s: seq<T>): (r: seq<T>) {
    if s == [] then []
    else (if cmp(x, s[0]) <= 0 && cmp(s[0], x) <= 0 then [s[0]] else []) + Class(cmp, x, s[1..])
  }

  lemma {:induction false} ClassAppend<T>(cmp: (T, T) -> int, x: T, s: seq<T>, t: seq<T>)
    ensures Class(cmp, x, s + t) == Class(cmp, x, s) + Class(cmp, x, t)
  {
    if s == [] {
      assert s + t == t;
    } else {
      assert (s + t)[1..] == s[1..] + t;
      ClassAppend(cmp, x, s[1..], t);
    }
  }

  lemma {:induction false} ClassEmpty<T>(cmp: (T, T) -> int, x: T, s: seq<T>)
    requires forall y :: y in s ==> cmp(y, x) > 0
    ensures Class(cmp, x, s) == []
  {
    if s != [] {
      ClassEmpty(cmp, x, s[1..]);
    }
  }

  /** Nothing in a sorted `p` whose head is above `y` is equivalent to `x`, if `y` is. */
  lemma {:induction false} AboveClass<T>(cmp: (T, T) -> int, x: T, all: seq<T>, p: seq<T>, y: T)
    requires TotalPreorder(cmp, all) && Sorted(cmp, p) && p != [] && x in all && y in all
    requires forall z :: z in p ==> z in all
    requires cmp(p[0], y) > 0 && cmp(x, y) <= 0
    ensures Class(cmp, x, p) == []
  {
    SortedHead(cmp, all, p);
    assert p[0] in all;
    ClassEmpty(cmp, x, p);
  }

  lemma {:induction false} MergeStable<T>(cmp: (T, T) -> int, x: T, all: seq<T>, p: seq<T>, q: seq<T>)
    requires TotalPreorder(cmp, all) && Sorted(cmp, p) && x in all
    requires (forall y :: y in p ==> y in all) && (forall y :: y in q ==> y in all)
    ensures Class(cmp, x, Merge(cmp, p, q)) == Class(cmp, x, p) + Class(cmp, x, q)
    decreases |p| + |q|
  {
    hide Sorted, TotalPreorder;
    if p != [] && q != [] {
      SortedHead(cmp, all, p);
      if cmp(p[0], q[0]) <= 0 {
        MergeStable(cmp, x, all, p[1..], q);
        assert ([p[0]] + Merge(cmp, p[1..], q))[1..] == Merge(cmp, p[1..], q);
      } else {
        MergeStable(cmp, x, all, p, q[1..]);
        assert ([q[0]] + Merge(cmp, p, q[1..]))[1..] == Merge(cmp, p, q[1..]);
        if cmp(x, q[0]) <= 0 {
          AboveClass(cmp, x, all, p, q[0]);
        }
      }
    }
  }

  lemma {:induction false} PassStable<T>(cmp: (T, T) -> int, x: T, all: seq<T>, s: seq<T>, w: nat)
    requires w > 0 && TotalPreorder(cmp, all) && x in all && (forall y :: y in s ==> y in all) && RunsSorted(cmp, s, w)
    ensures Class(cmp, x, MergeRuns(cmp, s, w)) == Class(cmp, x, s)
    decreases |s|
  {
    if s != [] {
      var p, q, r := Take(s, w), Take(Drop(s, w), w), Drop(s, 2 * w);
      assert s == p + q + r && Drop(Drop(s, w), w) == r;
      MergeStable(cmp, x, all, p, q);
      PassStable(cmp, x, all, r, w);
      ClassAppend(cmp, x, Merge(cmp, p, q), MergeRuns(cmp, r, w));
      ClassAppend(cmp, x, p + q, r);
      ClassAppend(cmp, x, p, q);
    }
  }

  lemma {:induction false} SingleRuns<T>(cmp: (T, T) -> int, s: seq<T>)
    ensures RunsSorted(cmp, s, 1)
  {
    if s != [] {
      SingleRuns(cmp, Drop(s, 1));
    }
  }

  lemma {:induction false} BottomUpSorts<T>(cmp: (T, T) -> int, s: seq<T>, w: nat)
    requires w > 0 && TotalPreorder(cmp, s) && RunsSorted(cmp, s, w)
    ensures Sorted(cmp, BottomUp(cmp, s, w)) && multiset(BottomUp(cmp, s, w)) == multiset(s)
    ensures forall x :: x in s ==> Class(cmp, x, BottomUp(cmp, s, w)) == Class(cmp, x, s)
    decreases if |s| > 2 * w then |s| - w else 0
  {
    var t := MergeRuns(cmp, s, w);
    RunsContents(cmp, s, w);
    PassSorts(cmp, s, s, w);
    forall x | x in s
      ensures Class(cmp, x, t) == Class(cmp, x, s) && x in t
    {
      PassStable(cmp, x, s, s, w);
      SameElements(s, t, x);
    }
    if |s| <= 2 * w {
      assert Take(t, 2 * w) == t;
    } else {
      forall x | x in t
        ensures x in s
      {
        SameElements(s, t, x);
      }
      BottomUpSorts(cmp, t, 2 * w);
    }
  }

  lemma {:induction false} BottomUpContents<T>(cmp: (T, T) -> int, s: seq<T>, w: nat)
    requires w > 0
    ensures multiset(BottomUp(cmp, s, w)) == multiset(s) && |BottomUp(cmp, s, w)| == |s|
    decreases if |s| > 2 * w then |s| - w else 0
  {
    RunsContents(cmp, s, w);
    if |s| > 2 * w {
      BottomUpContents(cmp, MergeRuns(cmp, s, w), 2 * w);
    }
  }

  /** The sort arranges any sequence by `cmp`, keeps its elements, and keeps the order of those that `cmp` does not
      tell apart. */
  lemma {:induction false} SortsStably<T>(cmp: (T, T) -> int, s: seq<T>)
    requires TotalPreorder(cmp, s)
    ensures Sorted(cmp, BottomUp(cmp, s, 1)) && multiset(BottomUp(cmp, s, 1)) == multiset(s)
    ensures forall x :: x in s ==> Class(cmp, x, BottomUp(cmp, s, 1)) == Class(cmp, x, s)
  {
    SingleRuns(cmp, s);
    BottomUpSorts(cmp, s, 1);
  }

  lemma {:induction false} ClassMembers<T>(cmp: (T, T) -> int, x: T, s: seq<T>, y: T)
    ensures y in Class(cmp, x, s) <==> y in s && cmp(x, y) <= 0 && cmp(y, x) <= 0
  {
    if s != [] {
      ClassMembers(cmp, x, s[1..], y);
      assert s == [s[0]] + s[1..];
    }
  }

  lemma {:induction false} SameMember<T>(cmp: (T, T) -> int, s: seq<T>, t: seq<T>, x: T)
    requires Class(cmp, x, s) == Class(cmp, x, t) && cmp(x, x) <= 0
    ensures x in s <==> x in t
  {
    ClassMembers(cmp, x, s, x);
    ClassMembers(cmp, x, t, x);
  }

  lemma {:induction false} NonemptyToo<T>(cmp: (T, T) -> int, all: seq<T>, s: seq<T>, t: seq<T>)
    requires TotalPreorder(cmp, all) && s != [] && forall y :: y in s ==> y in all
    requires forall x :: x in all ==> Class(cmp, x, s) == Class(cmp, x, t)
    ensures t != []
  {
    assert s[0] in s && cmp(s[0], s[0]) <= 0;
    SameMember(cmp, s, t, s[0]);
  }

  lemma {:induction false} SameHead<T>(cmp: (T, T) -> int, all: seq<T>, s: seq<T>, t: seq<T>)
    requires TotalPreorder(cmp, all) && Sorted(cmp, s) && Sorted(cmp, t) && s != [] && t != []
    requires (forall y :: y in s ==> y in all) && (forall y :: y in t ==> y in all)
    requires forall x :: x in all ==> Class(cmp, x, s) == Class(cmp, x, t)
    ensures s[0] == t[0]
  {
    assert s[0] in s && s[0] in all && t[0] in t && t[0] in all;
    SortedHead(cmp, all, s);
    SortedHead(cmp, all, t);
    assert cmp(s[0], s[0]) <= 0 && cmp(t[0], t[0]) <= 0;
    SameMember(cmp, s, t, s[0]);
    SameMember(cmp, s, t, t[0]);
    assert Class(cmp, s[0], s)[0] == s[0];
    assert Class(cmp, s[0], t)[0] == t[0];
  }

  lemma {:induction false} SameTails<T>(cmp: (T, T) -> int, s: seq<T>, t: seq<T>, x: T)
    requires s != [] && t != [] && s[0] == t[0] && Class(cmp, x, s) == Class(cmp, x, t)
    ensures Class(cmp, x, s[1..]) == Class(cmp, x, t[1..])
  {
    var h := if cmp(x, s[0]) <= 0 && cmp(s[0], x) <= 0 then [s[0]] else [];
    assert (h + Class(cmp, x, s[1..]))[|h|..] == Class(cmp, x, s[1..]);
    assert (h + Class(cmp, x, t[1..]))[|h|..] == Class(cmp, x, t[1..]);
  }

  /** Being sorted and keeping the order within each class leaves one arrangement only. */
  lemma {:induction false} StableArrangementUnique<T>(cmp: (T, T) -> int, all: seq<T>, s: seq<T>, t: seq<T>)
    requires TotalPreorder(cmp, all) && Sorted(cmp, s) && Sorted(cmp, t)
    requires (forall y :: y in s ==> y in all) && (forall y :: y in t ==> y in all)
    requires forall x :: x in all ==> Class(cmp, x, s) == Class(cmp, x, t)
    ensures s == t
  {
    if s != [] {
      NonemptyToo(cmp, all, s, t);
    }
    if t != [] {
      NonemptyToo(cmp, all, t, s);
    }
    if s != [] && t != [] {
      hide Sorted, TotalPreorder, Class;
      SameHead(cmp, all, s, t);
      SortedHead(cmp, all, s);
      SortedHead(cmp, all, t);
      forall x | x in all
        ensures Class(cmp, x, s[1..]) == Class(cmp, x, t[1..])
      {
        SameTails(cmp, s, t, x);
      }
      StableArrangementUnique(cmp, all, s[1..], t[1..]);
      assert s == [s[0]] + s[1..] && t == [t[0]] + t[1..];
    }
  }
}
