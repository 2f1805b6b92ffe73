/** Why bucket expansion bounds the chains of the hash table: the arithmetic of `expand_mult` and of the
    ideal chain length, on the lists of per-bucket counts alone. */
module ChainBound {
  import opened Words
  import opened Seqs

  const CAPACITY_THRESH: nat := 10

  /** What expansion leaves in `expand_mult` of a bucket that received `count` items. */
  function ExpandMult(count: nat, ideal: nat): (m: nat)
    requires ideal > 0
  {
    if count > ideal then Quotient(count, ideal) else 0
  }

  function Excess(count: nat, ideal: nat): nat {
    if count > ideal then count - ideal else 0
  }

  function Excesses(counts: seq<nat>, ideal: nat): (r: seq<nat>)
    ensures |r| == |counts|
    ensures forall i :: 0 <= i < |r| ==> r[i] == Excess(counts[i], ideal)
  {
    seq(|counts|, i requires 0 <= i < |counts| => Excess(counts[i], ideal))
  }

  /** The room a bucket has: no chain outgrows its cap without triggering an expansion. */
  ghost predicate CapsFit(counts: seq<nat>, mults: seq<nat>, caps: seq<nat>) {
    && |counts| == |mults| == |caps|
    && (forall b :: 0 <= b < |caps| ==> 10 * mults[b] + 9 <= caps[b] <= 10 * mults[b] + 10)
    && (forall b :: 0 <= b < |caps| ==> counts[b] <= caps[b])
    && Sum(caps) <= 19 * |caps|
  }

  lemma {:induction false} CapsBoundItems(counts: seq<nat>, mults: seq<nat>, caps: seq<nat>)
    requires CapsFit(counts, mults, caps)
    ensures Sum(counts) <= 19 * |counts|
    ensures forall b :: 0 <= b < |counts| ==> counts[b] <= CAPACITY_THRESH * (mults[b] + 1)
  {
    SumMonotone(counts, caps);
  }

  /** One more item in bucket `b` still fits unless it reaches the threshold, and is in any case the only one too
      many. */
  lemma {:induction false} OneMore(counts: seq<nat>, mults: seq<nat>, caps: seq<nat>, b: nat)
    requires CapsFit(counts, mults, caps) && b < |counts|
    ensures Sum(counts[b := counts[b] + 1]) <= 19 * |counts| + 1
    ensures counts[b] + 1 < CAPACITY_THRESH * (mults[b] + 1) ==> CapsFit(counts[b := counts[b] + 1], mults, caps)
  {
    SumMonotone(counts, caps);
    SumUpdate(counts, b, counts[b] + 1);
  }

  lemma {:induction false} OneFewer(counts: seq<nat>, mults: seq<nat>, caps: seq<nat>, b: nat)
    requires CapsFit(counts, mults, caps) && b < |counts| && counts[b] > 0
    ensures CapsFit(counts[b := counts[b] - 1], mults, caps)
  {
  }

  /** The caps of the initial table. */
  lemma {:induction false} InitialCaps(n: nat) returns (caps: seq<nat>)
    ensures CapsFit(seq(n, _ => 0), seq(n, _ => 0), caps)
  {
    caps := seq(n, _ => 9);
    SumConst(caps, 9);
  }

  /** The ideal length that an expansion triggered by one addition too many computes is between 1 and 10. */
  lemma {:induction false} IdealInRange(items: nat, buckets: nat)
    requires buckets > 0 && 0 < items <= 19 * buckets + 1
    ensures 1 <= Ceiling(items, 2 * buckets) <= 10
  {
    var d, ideal := 2 * buckets, Ceiling(items, 2 * buckets);
    CeilingIsLeast(items, d);
    if ideal > 11 {
      MulStep(d, 10, ideal - 1);
    }
  }

  function CapAfterExpand(count: nat, ideal: nat): (cap: nat)
    requires ideal > 0
  {
    var m := ExpandMult(count, ideal);
    if count == 10 * m + 10 then 10 * m + 10 else 10 * m + 9
  }

  lemma {:induction false} CapCost(count: nat, ideal: nat)
    requires 1 <= ideal <= 10
    ensures var m, cap := ExpandMult(count, ideal), CapAfterExpand(count, ideal);
            count <= cap && 10 * m + 9 <= cap <= 10 * m + 10 && ideal * cap <= 9 * ideal + 10 * count
  {
    var m := ExpandMult(count, ideal);
    if count > ideal {
      QuotientIsDiv(count, ideal);
      assert count == ideal * m + count % ideal;
      if ideal < 10 {
        MulAtMost(ideal, m);
      }
      assert ideal * (10 * m + 9) == 10 * (ideal * m) + 9 * ideal;
    }
  }

  lemma {:induction false} MulAtMost(ideal: nat, m: nat)
    requires ideal <= 10
    ensures ideal * m <= 10 * m
  {
    assert 10 * m == ideal * m + (10 - ideal) * m;
  }

  lemma {:induction false} CapsCost(counts: seq<nat>, caps: seq<nat>, ideal: nat)
    requires |counts| == |caps| && 1 <= ideal <= 10
    requires forall b :: 0 <= b < |caps| ==> caps[b] == CapAfterExpand(counts[b], ideal)
    ensures ideal * Sum(caps) <= 9 * (ideal * |caps|) + 10 * Sum(counts)
  {
    if caps != [] {
      CapsCost(counts[1..], caps[1..], ideal);
      CapCost(counts[0], ideal);
      MulDistributes(ideal, caps[0], Sum(caps[1..]));
      MulDistributes(ideal, 1, |caps| - 1);
    }
  }

  lemma {:induction false} MulDistributes(d: nat, a: nat, b: nat)
    ensures d * (a + b) == d * a + d * b
  {
  }

  /** After an expansion the fresh multipliers leave room again, and not more than 19 items a bucket. */
  lemma {:induction false} ExpandRestoresCaps(counts: seq<nat>, mults: seq<nat>, ideal: nat) returns (caps: seq<nat>)
    requires |counts| == |mults| > 0 && 1 <= ideal <= 10
    requires ideal == Ceiling(Sum(counts), |counts|)
    requires forall b :: 0 <= b < |counts| ==> mults[b] == ExpandMult(counts[b], ideal)
    ensures CapsFit(counts, mults, caps)
  {
    caps := seq(|counts|, b requires 0 <= b < |counts| => CapAfterExpand(counts[b], ideal));
    CapsCost(counts, caps, ideal);
    forall b | 0 <= b < |caps|
      ensures 10 * mults[b] + 9 <= caps[b] <= 10 * mults[b] + 10 && counts[b] <= caps[b]
    {
      CapCost(counts[b], ideal);
    }
    CeilingIsLeast(Sum(counts), |counts|);
    assert ideal * |counts| == |counts| * ideal;
    CapsTotal(ideal, |counts|, Sum(counts), Sum(caps));
  }

  lemma {:induction false} CapsTotal(ideal: nat, n: nat, items: nat, total: nat)
    requires ideal > 0 && items <= ideal * n
    requires ideal * total <= 9 * (ideal * n) + 10 * items
    ensures total <= 19 * n
  {
    assert ideal * (19 * n) == 19 * (ideal * n);
    if total > 19 * n {
      MulStep(ideal, 19 * n, total);
    }
  }
}
