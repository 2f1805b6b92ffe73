/** Sequences without repetition, and the sums over sequences that the table statistics need. */
module Seqs {

  ghost predicate NoDup<T>(s: seq<T>) {
    forall i, j :: 0 <= i < j < |s| ==> s[i] != s[j]
  }

  lemma {:induction false} NoDupSplits<T>(s: seq<T>, k: nat)
    requires NoDup(s) && k < |s|
    ensures s[k] !in s[..k] && NoDup(s[..k])
  {
  }

  /** `s` with every occurrence of `x` taken out. */
  function Without<T(==)>(s: seq<T>, x: T): (r: seq<T>) {
    if s == [] then [] else (if s[0] == x then [] else [s[0]]) + Without(s[1..], x)
  }

  lemma {:induction false} WithoutAbsent<T>(s: seq<T>, x: T)
    requires x !in s
    ensures Without(s, x) == s
  {
    if s != [] {
      assert s == [s[0]] + s[1..];
      WithoutAbsent(s[1..], x);
    }
  }

  lemma {:induction false} WithoutAt<T>(s: seq<T>, k: nat)
    requires k < |s| && NoDup(s)
    ensures Without(s, s[k]) == s[..k] + s[k + 1..]
  {
    if k == 0 {
      WithoutAbsent(s[1..], s[0]);
      assert s[..0] + s[1..] == s[1..];
    } else {
      WithoutAt(s[1..], k - 1);
      assert s[1..][..k - 1] == s[1..k] && s[1..][k..] == s[k + 1..];
      assert [s[0]] + s[1..k] == s[..k];
    }
  }

  lemma {:induction false} WithoutItems<T>(s: seq<T>, k: nat)
    requires k < |s| && NoDup(s)
    ensures NoDup(Without(s, s[k]))
    ensures forall y {:trigger y in Without(s, s[k])} :: y in Without(s, s[k]) ==> y in s && y != s[k]
    ensures forall y {:trigger y in s} :: y in s && y != s[k] ==> y in Without(s, s[k])
  {
    WithoutAt(s, k);
    var t := Without(s, s[k]);
    assert forall i :: 0 <= i < |t| ==> t[i] == s[if i < k then i else i + 1];
    forall y | y in s && y != s[k]
      ensures y in t
    {
      var j :| 0 <= j < |s| && s[j] == y;
      assert t[if j < k then j else j - 1] == y;
    }
  }

  function Sum(s: seq<nat>): (n: nat) {
    if s == [] then 0 else s[0] + Sum(s[1..])
  }

  lemma {:induction false} SumUpdate(s: seq<nat>, i: nat, v: nat)
    requires i < |s|
    ensures Sum(s[i := v]) + s[i] == Sum(s) + v
  {
    if i == 0 {
      assert s[0 := v][1..] == s[1..];
    } else {
      assert s[i := v][1..] == s[1..][i - 1 := v];
      SumUpdate(s[1..], i - 1, v);
    }
  }

  lemma {:induction false} SumConst(s: seq<nat>, v: nat)
    requires forall i :: 0 <= i < |s| ==> s[i] == v
    ensures Sum(s) == v * |s|
  {
    if s != [] {
      SumConst(s[1..], v);
      assert v * |s| == v + v * (|s| - 1);
    }
  }

  lemma {:induction false} SumMonotone(s: seq<nat>, t: seq<nat>)
    requires |s| == |t| && forall i :: 0 <= i < |s| ==> s[i] <= t[i]
    ensures Sum(s) <= Sum(t)
  {
    if s != [] {
      SumMonotone(s[1..], t[1..]);
    }
  }

  lemma {:induction false} SumPrefix(s: seq<nat>, i: nat)
    requires i < |s|
    ensures Sum(s[..i + 1]) == Sum(s[..i]) + s[i]
  {
    if i > 0 {
      SumPrefix(s[1..], i - 1);
      assert s[..i + 1][1..] == s[1..][..i] && s[..i][1..] == s[1..][..i - 1];
    }
  }
}
