/** The string operations that the line format and the address parsers rely on. */
module Text {

  function Digit(d: nat): (c: char)
    requires d < 10
    ensures '0' <= c <= '9' && c as int == '0' as int + d
  {
    "0123456789"[d]
  }

  predicate Digits(s: string) {
    forall i :: 0 <= i < |s| ==> '0' <= s[i] <= '9'
  }

  /** The decimal form of a number, as `%d` prints it. */
  function Dec(n: nat): (s: string)
    ensures s != [] && Digits(s)
  {
    if n < 10 then [Digit(n)] else Dec(n / 10) + [Digit(n % 10)]
  }

  function Value(s: string): (n: nat)
    requires Digits(s)
  {
    if s == [] then 0 else
      10 * Value(s[..|s| - 1]) + (s[|s| - 1] - '0') as nat
  }

  lemma {:induction false} DigitValue(d: nat)
    requires d < 10
    ensures (Digit(d) - '0') as nat == d
  {
  }

  /** Reading a printed number gives the number. */
  lemma {:induction false} ValueOfDec(n: nat)
    ensures Value(Dec(n)) == n
  {
    if n < 10 {
      DigitValue(n);
      assert Dec(n)[..0] == [];
    } else {
      ValueOfDec(n / 10);
      DigitValue(n % 10);
      assert Dec(n)[..|Dec(n)| - 1] == Dec(n / 10);
    }
  }

  /** The decimal form has no leading zero, and nothing else that reads as the number is without one. */
  lemma {:induction false} DecIsOnly(n: nat, s: string)
    requires s != [] && Digits(s) && Value(s) == n && (|s| > 1 ==> s[0] != '0')
    ensures s == Dec(n)
  {
    var t, d := s[..|s| - 1], (s[|s| - 1] - '0') as nat;
    assert n == 10 * Value(t) + d;
    if t == [] {
      assert s == [Digit(n)];
    } else {
      ValuePositive(t);
      assert n / 10 == Value(t) && n % 10 == d;
      DecIsOnly(n / 10, t);
      assert s == t + [Digit(d)];
    }
  }

  lemma {:induction false} ValuePositive(s: string)
    requires s != [] && Digits(s)
    ensures s[0] != '0' ==> Value(s) > 0
  {
    if |s| > 1 {
      ValuePositive(s[..|s| - 1]);
    } else {
      assert s[..0] == [];
    }
  }

  lemma {:induction false} DecLeads(n: nat)
    ensures |Dec(n)| > 1 ==> Dec(n)[0] != '0'
    ensures Dec(n)[0] == '0' ==> n == 0
  {
    if n >= 10 {
      DecLeads(n / 10);
    }
  }

  /** The pieces of `s` between the occurrences of `c`. */
  function Split(s: string, c: char): (r: seq<string>)
    ensures |r| >= 1
  {
    if s == [] then [[]] else
      var r := Split(s[1..], c);
      if s[0] == c then [[]] + r else [[s[0]] + r[0]] + r[1..]
  }

  lemma {:induction false} SplitOne(s: string, c: char)
    requires c !in s
    ensures Split(s, c) == [s]
  {
    if s != [] {
      SplitOne(s[1..], c);
      assert s == [s[0]] + s[1..];
    }
  }

  lemma {:induction false} SplitMany(s: string, c: char)
    requires c in s
    ensures |Split(s, c)| > 1
  {
    if s[0] != c {
      assert c in s[1..];
      SplitMany(s[1..], c);
    }
  }

  /** The piece after the last separator is the last piece. */
  lemma {:induction false} SplitAtLast(a: string, c: char, b: string)
    requires c !in b
    ensures Split(a + [c] + b, c) == Split(a, c) + [b]
  {
    var s := a + [c] + b;
    if a == [] {
      assert s == [c] + b && s[1..] == b;
      SplitOne(b, c);
    } else {
      assert s[1..] == a[1..] + [c] + b;
      SplitAtLast(a[1..], c, b);
      var r := Split(a[1..], c);
      assert (r + [b])[0] == r[0] && (r + [b])[1..] == r[1..] + [b];
    }
  }

  function HasPrefix(s: string, p: string): (b: bool)
    ensures b <==> p <= s
  {
    p <= s
  }

  ghost predicate OccursAt(s: string, t: string, i: int) {
    0 <= i <= |s| - |t| && s[i..i + |t|] == t
  }

  /** `t` occurs in `s`. */
  ghost predicate Occurs(s: string, t: string) {
    exists i :: OccursAt(s, t, i)
  }

  function Contains(s: string, t: string): (b: bool) {
    t <= s || (s != [] && Contains(s[1..], t))
  }

  lemma {:induction false} ContainsIsOccurs(s: string, t: string)
    ensures Contains(s, t) <==> Occurs(s, t)
  {
    if t <= s {
      assert OccursAt(s, t, 0);
    } else if s != [] {
      ContainsIsOccurs(s[1..], t);
      if Occurs(s, t) {
        var i :| OccursAt(s, t, i);
        assert i != 0 by { assert s[0..0 + |t|] == s[..|t|]; }
        assert s[1..][i - 1..i - 1 + |t|] == s[i..i + |t|];
        assert OccursAt(s[1..], t, i - 1);
      }
      if Occurs(s[1..], t) {
        var i :| OccursAt(s[1..], t, i);
        assert s[i + 1..i + 1 + |t|] == s[1..][i..i + |t|];
        assert OccursAt(s, t, i + 1);
      }
    }
  }

  /** The index of the last `c` in `s`, or -1. */
  function LastIndex(s: string, c: char): (i: int)
    ensures -1 <= i < |s|
    ensures i >= 0 ==> s[i] == c
    ensures forall j :: i < j < |s| ==> s[j] != c
  {
    if s == [] then -1 else if s[|s| - 1] == c then |s| - 1 else LastIndex(s[..|s| - 1], c)
  }

  /** The index of the first `c` in `s`, or |s|. */
  function IndexOf(s: string, c: char): (i: nat)
    ensures i <= |s| && (i < |s| ==> s[i] == c) && c !in s[..i]
  {
    if s == [] || s[0] == c then 0 else
      var i := 1 + IndexOf(s[1..], c);
      assert s[..i] == [s[0]] + s[1..][..i - 1];
      i
  }

  lemma {:induction false} IndexAfter(a: string, c: char, b: string)
    requires c !in a
    ensures IndexOf(a + [c] + b, c) == |a|
  {
    var s := a + [c] + b;
    if a != [] {
      assert s[1..] == a[1..] + [c] + b;
      IndexAfter(a[1..], c, b);
    }
  }
}
