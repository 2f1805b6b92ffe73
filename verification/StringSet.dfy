/** The chained set of strings behind the black list and the white list. */
module StringSet {
  import opened Options
  import opened Seqs

  const SIZE: nat := 509
  const WORD_MODULUS: nat := 0x1_0000_0000_0000_0000

  /** The value of a C `char`, which is signed. */
  function CharValue(c: char): (v: int)
    ensures -128 <= v < 128 && (c as int - v) % 256 == 0
  {
    var b := c as int % 256;
    if b < 128 then b else b - 256
  }

  /** The value an `unsigned long` keeps of an integer. */
  function Wrap(n: int): (r: nat)
    ensures r < WORD_MODULUS
  {
    n % WORD_MODULUS
  }

  /** The hash of a string: every character multiplies by 33 and adds itself. */
  function StrHash(s: string): (h: nat)
    ensures h < WORD_MODULUS
  {
    if s == [] then 5381 else Wrap(33 * StrHash(s[..|s| - 1]) + CharValue(s[|s| - 1]))
  }

  lemma {:induction false} WrapShift(n: int, q: int)
    ensures Wrap(n + q * WORD_MODULUS) == Wrap(n)
  {
    var r := n / WORD_MODULUS;
    assert n == r * WORD_MODULUS + n % WORD_MODULUS;
    assert (n + q * WORD_MODULUS) / WORD_MODULUS == r + q;
  }

  lemma {:induction false} WrapSum(a: int, b: int)
    ensures Wrap(Wrap(a) + b) == Wrap(a + b)
  {
    var q := a / WORD_MODULUS;
    assert Wrap(a) + b == (a + b) + (-q) * WORD_MODULUS;
    WrapShift(a + b, -q);
  }

  lemma {:induction false} WrapSteps(h: nat, c: int)
    ensures Wrap(Wrap(Wrap(h * 32) + h) + c) == Wrap(33 * h + c)
  {
    hide Wrap;
    WrapSum(h * 32, h);
    WrapSum(h * 33, c);
  }

  function Pow33(k: nat): (p: nat) {
    if k == 0 then 1 else 33 * Pow33(k - 1)
  }

  /** The sum of the characters, each times 33 to the number of characters behind it. */
  function Weighted(s: string): (w: int) {
    if s == [] then 0 else CharValue(s[0]) * Pow33(|s| - 1) + Weighted(s[1..])
  }

  lemma {:induction false} WeightedSnoc(s: string)
    requires s != []
    ensures Weighted(s) == 33 * Weighted(s[..|s| - 1]) + CharValue(s[|s| - 1])
  {
    if |s| > 1 {
      var t := s[..|s| - 1];
      WeightedSnoc(s[1..]);
      assert s[1..][..|s[1..]| - 1] == t[1..] && t[0] == s[0];
      var c, p := CharValue(s[0]), Pow33(|s| - 2);
      assert c * (33 * p) == 33 * (c * p);
      hide CharValue;
    } else {
      assert Weighted(s[1..]) == 0 && Weighted(s[..0]) == 0;
    }
  }

  lemma {:induction false} WrapHorner(x: int, c: int)
    ensures Wrap(33 * Wrap(x) + c) == Wrap(33 * x + c)
  {
    var q := x / WORD_MODULUS;
    assert 33 * Wrap(x) + c == (33 * x + c) + (-33 * q) * WORD_MODULUS;
    WrapShift(33 * x + c, -33 * q);
  }

  /** The hash of a string of n characters is 5381 times 33^n plus their weighted sum, modulo 2^64. */
  lemma {:induction false} HashIsPolynomial(s: string)
    ensures StrHash(s) == (5381 * Pow33(|s|) + Weighted(s)) % 0x1_0000_0000_0000_0000 && Slot(s) == StrHash(s) % 509
  {
    if s != [] {
      var t := s[..|s| - 1];
      HashIsPolynomial(t);
      WeightedSnoc(s);
      WrapHorner(5381 * Pow33(|t|) + Weighted(t), CharValue(s[|s| - 1]));
      hide Weighted, CharValue;
    }
  }

  method ComputeHash(str: string) returns (hash: nat)
    ensures hash == StrHash(str)
  {
    hash := 5381;
    var i := 0;
    while i < |str|
      invariant i <= |str| && hash == StrHash(str[..i])
    {
      var c := CharValue(str[i]);
      assert str[..i + 1][..i] == str[..i];
      WrapSteps(hash, c);
      hash := Wrap(Wrap(Wrap(hash * 32) + hash) + c);
      i := i + 1;
    }
    assert str[..i] == str;
  }

  function Slot(s: string): (b: nat)
    ensures b < SIZE
  {
    StrHash(s) % SIZE
  }

  class Member {
    var link: Member?
    var element: string

    constructor (element: string, link: Member?)
      ensures this.element == element && this.link == link
    {
      this.element, this.link := element, link;
    }
  }

  datatype Cell = Cell(link: Member?, element: string)
  type Cells = map<Member, Cell>

  ghost function CellsOf(ms: set<Member>): (c: Cells)
    reads ms
  {
    map x | x in ms :: Cell(x.link, x.element)
  }

  function MemberAt(s: seq<Member>, i: int): (x: Member?) {
    if 0 <= i < |s| then s[i] else null
  }

  /** The member at place `i` of chain `b` is linked to the next one and holds a string of that bucket. */
  ghost predicate CellOk(c: Cells, s: seq<Member>, node: map<string, Member>, b: nat, i: nat)
    requires i < |s|
  {
    var x := s[i];
    x in c && c[x].link == MemberAt(s, i + 1) && Slot(c[x].element) == b && c[x].element in node && node[c[x].element] == x
  }

  ghost predicate ChainOk(c: Cells, s: seq<Member>, node: map<string, Member>, b: nat) {
    NoDup(s) && forall i {:trigger CellOk(c, s, node, b, i)} :: 0 <= i < |s| ==> CellOk(c, s, node, b, i)
  }

  ghost predicate Named(c: Cells, cs: seq<seq<Member>>, node: map<string, Member>, e: string)
    requires |cs| == SIZE && e in node
  {
    node[e] in cs[Slot(e)] && node[e] in c && c[node[e]].element == e
  }

  /** The buckets `bs` and the cells `c` hold exactly the strings of `node`, each in one member, which `node` names. */
  ghost predicate Holds(bs: seq<Member?>, c: Cells, cs: seq<seq<Member>>, node: map<string, Member>) {
    && |bs| == |cs| == SIZE
    && (forall b {:trigger cs[b]} {:trigger bs[b]} :: 0 <= b < SIZE ==> bs[b] == MemberAt(cs[b], 0) && ChainOk(c, cs[b], node, b))
    && (forall e {:trigger e in node} :: e in node ==> Named(c, cs, node, e))
  }

  lemma {:induction false} ChainMore(c: Cells, s: seq<Member>, node: map<string, Member>, b: nat, e: string, x: Member)
    requires ChainOk(c, s, node, b) && e !in node && x !in c && Slot(e) == b
    ensures ChainOk(c[x := Cell(MemberAt(s, 0), e)], [x] + s, node[e := x], b)
  {
    hide Slot;
    var t, c', node' := [x] + s, c[x := Cell(MemberAt(s, 0), e)], node[e := x];
    forall i | 0 <= i < |s|
      ensures s[i] != x
    {
      assert CellOk(c, s, node, b, i);
    }
    forall j | 0 <= j < |t|
      ensures CellOk(c', t, node', b, j)
    {
      assert j > 0 ==> CellOk(c, s, node, b, j - 1);
    }
  }

  lemma {:induction false} ChainSame(c: Cells, s: seq<Member>, node: map<string, Member>, b: nat, e: string,
                                     x: Member, cell: Cell)
    requires ChainOk(c, s, node, b) && e !in node && x !in c
    ensures ChainOk(c[x := cell], s, node[e := x], b)
  {
    hide Slot;
    var c', node' := c[x := cell], node[e := x];
    forall i | 0 <= i < |s|
      ensures CellOk(c', s, node', b, i)
    {
      assert CellOk(c, s, node, b, i);
    }
  }

  lemma {:induction false} HoldsMore(bs: seq<Member?>, c: Cells, cs: seq<seq<Member>>, node: map<string, Member>,
                                     e: string, x: Member)
    requires Holds(bs, c, cs, node) && e !in node && x !in c
    ensures var b := Slot(e);
            Holds(bs[b := x], c[x := Cell(bs[b], e)], cs[b := [x] + cs[b]], node[e := x])
  {
    hide Slot, CellOk, ChainOk;
    var b := Slot(e);
    var bs', c', cs', node' := bs[b := x], c[x := Cell(bs[b], e)], cs[b := [x] + cs[b]], node[e := x];
    forall d | 0 <= d < SIZE
      ensures bs'[d] == MemberAt(cs'[d], 0) && ChainOk(c', cs'[d], node', d)
    {
      if d == b {
        ChainMore(c, cs[b], node, b, e, x);
      } else {
        ChainSame(c, cs[d], node, d, e, x, Cell(bs[b], e));
      }
    }
    forall f {:trigger f in node'} | f in node'
      ensures Named(c', cs', node', f)
    {
      assert f != e ==> Named(c, cs, node, f);
      assert x in cs'[b];
    }
  }

  /** The cells after `x`, at place `k` of the chain `s`, was led past. */
  ghost function Past(c: Cells, s: seq<Member>, k: nat): (c': Cells)
    requires k < |s| && s[k] in c && (k > 0 ==> s[k - 1] in c)
    ensures c'.Keys == c.Keys && forall y {:trigger c'[y]} :: y in c ==> c'[y].element == c[y].element
    ensures forall y {:trigger c'[y]} :: y in c && (k > 0 ==> y != s[k - 1]) ==> c'[y] == c[y]
  {
    if k == 0 then c else c[s[k - 1] := c[s[k - 1]].(link := c[s[k]].link)]
  }

  lemma {:induction false} ChainLess(c: Cells, s: seq<Member>, node: map<string, Member>, b: nat, e: string, k: nat)
    requires ChainOk(c, s, node, b) && k < |s| && s[k] in c && (k > 0 ==> s[k - 1] in c) && c[s[k]].element == e
    ensures ChainOk(Past(c, s, k), s[..k] + s[k + 1..], node - {e}, b)
  {
    hide Slot;
    var t, c' := s[..k] + s[k + 1..], Past(c, s, k);
    assert CellOk(c, s, node, b, k);
    forall j | 0 <= j < |t|
      ensures CellOk(c', t, node - {e}, b, j)
    {
      var i := if j < k then j else j + 1;
      assert t[j] == s[i] && CellOk(c, s, node, b, i);
      if i == k - 1 {
        assert c'[s[i]].link == c[s[k]].link == MemberAt(s, k + 1) == MemberAt(t, j + 1);
      } else {
        assert c'[s[i]] == c[s[i]];
        assert MemberAt(s, i + 1) == MemberAt(t, j + 1);
      }
    }
  }

  lemma {:induction false} ChainApart(c: Cells, s: seq<Member>, r: seq<Member>, node: map<string, Member>, b: nat,
                                      d: nat, e: string, k: nat)
    requires b != d && b == Slot(e) && ChainOk(c, s, node, b) && ChainOk(c, r, node, d)
    requires k < |s| && s[k] in c && (k > 0 ==> s[k - 1] in c)
    ensures ChainOk(Past(c, s, k), r, node - {e}, d)
  {
    hide Slot, Past, NoDup;
    assert k > 0 ==> CellOk(c, s, node, b, k - 1);
    forall i | 0 <= i < |r|
      ensures CellOk(Past(c, s, k), r, node - {e}, d, i)
    {
      assert CellOk(c, r, node, d, i);
    }
  }

  lemma {:induction false} ItemsLess<T>(s: seq<T>, k: nat, x: T)
    requires k < |s| && x in s && x != s[k]
    ensures x in s[..k] + s[k + 1..]
  {
    var i :| 0 <= i < |s| && s[i] == x;
    assert (s[..k] + s[k + 1..])[if i < k then i else i - 1] == x;
  }

  lemma {:induction false} HoldsLess(bs: seq<Member?>, c: Cells, cs: seq<seq<Member>>, node: map<string, Member>,
                                     e: string, k: nat)
    requires Holds(bs, c, cs, node) && e in node && k < |cs[Slot(e)]| && node[e] == cs[Slot(e)][k]
    ensures var b, s := Slot(e), cs[Slot(e)];
            && s[k] in c && (k > 0 ==> s[k - 1] in c)
            && Holds(if k == 0 then bs[b := c[s[k]].link] else bs, Past(c, s, k), cs[b := s[..k] + s[k + 1..]], node - {e})
  {
    hide Slot, NoDup, Past;
    var b, s := Slot(e), cs[Slot(e)];
    assert CellOk(c, s, node, b, k) && (k > 0 ==> CellOk(c, s, node, b, k - 1));
    var bs', c' := if k == 0 then bs[b := c[s[k]].link] else bs, Past(c, s, k);
    var cs', node' := cs[b := s[..k] + s[k + 1..]], node - {e};
    assert bs'[b] == MemberAt(cs'[b], 0);
    hide CellOk, ChainOk;
    forall d | 0 <= d < SIZE
      ensures bs'[d] == MemberAt(cs'[d], 0) && ChainOk(c', cs'[d], node', d)
    {
      if d == b {
        ChainLess(c, s, node, b, e, k);
      } else {
        ChainApart(c, s, cs[d], node, b, d, e, k);
      }
    }
    forall f {:trigger f in node'} | f in node'
      ensures Named(c', cs', node', f)
    {
      assert f != e && Named(c, cs, node, f) && Named(c, cs, node, e);
      if Slot(f) == b {
        ItemsLess(s, k, node[f]);
      }
    }
  }

  class StrSet {
    var length: nat
    const size: nat := SIZE
    var buckets: array<Member?>
    ghost var members: set<Member>
    ghost var chains: seq<seq<Member>>
    ghost var node: map<string, Member>

    /** The set of strings that the buckets stand for. */
    ghost function Elements(): (r: set<string>)
      reads this`node
    {
      node.Keys
    }

    ghost predicate Valid()
      reads this, buckets, members
    {
      length == |node| && buckets.Length == SIZE == |chains| && Holds(buckets[..], CellsOf(members), chains, node)
    }

    constructor ()
      ensures Valid() && Elements() == {} && fresh(buckets) && members == {}
    {
      length := 0;
      buckets := new Member?[SIZE](_ => null);
      members, chains, node := {}, seq(SIZE, _ => []), map[];
    }

    /** What a walk along the chain of `elem` finds. */
    lemma {:induction false} WalkFacts(elem: string)
      requires Valid()
      ensures buckets.Length == SIZE == |chains| && buckets[Slot(elem)] == MemberAt(chains[Slot(elem)], 0)
      ensures var s := chains[Slot(elem)];
              && (forall j {:trigger s[j]} :: 0 <= j < |s| ==>
                    s[j] in members && s[j].link == MemberAt(s, j + 1) && s[j].element in node && node[s[j].element] == s[j])
              && (elem in node ==> node[elem] in s && node[elem].element == elem)
    {
      hide Slot;
      var s := chains[Slot(elem)];
      forall j | 0 <= j < |s|
        ensures s[j] in members && s[j].link == MemberAt(s, j + 1) && s[j].element in node && node[s[j].element] == s[j]
      {
        assert CellOk(CellsOf(members), chains[Slot(elem)], node, Slot(elem), j);
      }
    }

    /** The walk that membership and insertion share: it stops at the member with that string, if there is one. */
    method Search(elem: string) returns (i: nat, p: Member?)
      requires Valid()
      ensures i == Slot(elem) < buckets.Length && (p == null <==> elem !in Elements())
      ensures p != null ==> p in members && p.element == elem
    {
      hide Holds, StrHash, Valid;
      WalkFacts(elem);
      var h := ComputeHash(elem);
      i := h % size;
      ghost var s, k := chains[i], 0;
      p := buckets[i];
      while p != null
        invariant k <= |s| && p == MemberAt(s, k)
        invariant forall j :: 0 <= j < k ==> s[j].element != elem
        decreases |s| - k
      {
        if elem == p.element {
          break;
        }
        p := p.link;
        k := k + 1;
      }
    }

    method IsMember(elem: string) returns (found: bool)
      requires Valid()
      ensures found <==> elem in Elements()
    {
      var i, p := Search(elem);
      return p != null;
    }

    method Length() returns (n: nat)
      requires Valid()
      ensures n == |Elements()|
    {
      n := length;
    }

    method Put(elem: string)
      requires Valid()
      modifies this, buckets, members
      ensures Valid() && Elements() == old(Elements()) + {elem}
      ensures buckets == old(buckets) && fresh(members - old(members))
    {
      hide Valid;
      var i, p := Search(elem);
      if p == null {
        PutFront(i, elem);
      } else {
        Rename(p, elem);
      }
    }

    /** The member `p` is given another copy of the string it holds. */
    method Rename(p: Member, elem: string)
      requires Valid() && p in members && p.element == elem
      modifies p
      ensures Valid()
    {
      hide Holds;
      ghost var c := CellsOf(members);
      p.element := elem;
      assert CellsOf(members) == c;
    }

    method PutFront(i: nat, elem: string)
      requires Valid() && elem !in node && i == Slot(elem)
      modifies this, buckets
      ensures Valid() && Elements() == old(Elements()) + {elem}
      ensures buckets == old(buckets) && fresh(members - old(members))
    {
      hide Holds, Slot;
      ghost var bs, c := buckets[..], CellsOf(members);
      var p := new Member(elem, buckets[i]);
      HoldsMore(bs, c, chains, node, elem, p);
      buckets[i] := p;
      length := length + 1;
      members, chains, node := members + {p}, chains[i := [p] + chains[i]], node[elem := p];
      assert CellsOf(members) == c[p := Cell(bs[i], elem)];
      assert buckets[..] == bs[i := p];
    }

    method Remove(elem: string) returns (removed: Option<string>)
      requires Valid()
      modifies this, buckets, members
      ensures Valid() && Elements() == old(Elements()) - {elem}
      ensures removed == if elem in old(Elements()) then Some(elem) else None
      ensures buckets == old(buckets)
    {
      hide Holds, StrHash, Valid;
      WalkFacts(elem);
      var h := ComputeHash(elem);
      var i := h % size;
      ghost var s, k := chains[i], 0;
      var before: Member?, p := null, buckets[i];
      while p != null
        invariant k <= |s| && p == MemberAt(s, k) && before == MemberAt(s, k - 1)
        invariant forall j :: 0 <= j < k ==> s[j].element != elem
        modifies {}
        decreases |s| - k
      {
        if elem == p.element {
          break;
        }
        before := p;
        p := p.link;
        k := k + 1;
      }
      if p == null {
        return None;
      }
      removed := Some(p.element);
      TakeOut(i, before, p, k);
    }

    static lemma {:induction false} OneFewer(node: map<string, Member>, e: string)
      requires e in node
      ensures |node - {e}| == |node| - 1
    {
      assert node == (node - {e})[e := node[e]];
    }

    /** The link that leads to `p`, in the bucket or in the member before, is led past it. */
    method LeadPast(i: nat, before: Member?, p: Member, ghost k: nat)
      requires i < buckets.Length && p in members && i < |chains| && k < |chains[i]| && chains[i][k] == p
      requires before == MemberAt(chains[i], k - 1) && (before != null ==> before in members)
      modifies buckets, if before == null then {} else {before}
      ensures CellsOf(members) == Past(old(CellsOf(members)), chains[i], k)
      ensures buckets[..] == if k == 0 then old(buckets[..])[i := old(p.link)] else old(buckets[..])
    {
      ghost var c := CellsOf(members);
      if before == null {
        buckets[i] := p.link;
      } else {
        before.link := p.link;
      }
      assert CellsOf(members) == Past(c, chains[i], k);
    }

    method TakeOut(i: nat, before: Member?, p: Member, ghost k: nat)
      requires Valid() && p in members && i == Slot(p.element) && p.element in node && node[p.element] == p
      requires k < |chains[i]| && chains[i][k] == p
      requires before == MemberAt(chains[i], k - 1) && (before != null ==> before in members)
      modifies this, buckets, if before == null then {} else {before}
      ensures Valid() && Elements() == old(Elements()) - {old(p.element)} && buckets == old(buckets)
    {
      hide Holds, Slot, Past, MemberAt;
      ghost var bs, c, e := buckets[..], CellsOf(members), p.element;
      HoldsLess(bs, c, chains, node, e, k);
      assert c[p].link == p.link;
      hide CellsOf;
      LeadPast(i, before, p, k);
      Forget(i, k, e);
    }

    /** The last step of a removal: the count, and what the ghost fields forget. */
    method Forget(ghost i: nat, ghost k: nat, ghost e: string)
      requires length == |node| > 0 && e in node && buckets.Length == SIZE == |chains| && i < SIZE && k < |chains[i]|
      requires Holds(buckets[..], CellsOf(members), chains[i := chains[i][..k] + chains[i][k + 1..]], node - {e})
      modifies this`length, this`chains, this`node
      ensures Valid() && node == old(node) - {e}
    {
      hide Holds, CellsOf;
      OneFewer(node, e);
      length := length - 1;
      chains, node := chains[i := chains[i][..k] + chains[i][k + 1..]], node - {e};
    }
  }

  /** Whether a destination is left alone: every black one is, and so is every one outside the white list if there is
      a white list. */
  ghost predicate Ignored(black: Option<set<string>>, white: Option<set<string>>, ip: string) {
    (black.Some? && ip in black.value) || (white.Some? && ip !in white.value)
  }

  ghost function Listed(list: StrSet?): (r: Option<set<string>>)
    reads if list == null then {} else {list}
  {
    if list == null then None else Some(list.Elements())
  }

  method IsIgnore(black: StrSet?, white: StrSet?, ip: string) returns (ignore: bool)
    requires (black != null ==> black.Valid()) && (white != null ==> white.Valid())
    ensures ignore <==> Ignored(Listed(black), Listed(white), ip)
    ensures ignore <==> (black != null && ip in black.Elements()) || (white != null && ip !in white.Elements())
  {
    if black != null {
      var member := black.IsMember(ip);
      if member {
        return true;
      }
    }
    if white != null {
      var member := white.IsMember(ip);
      if !member {
        return true;
      }
    }
    return false;
  }
}
