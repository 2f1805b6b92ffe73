/** The memory of a traced process as ptrace shows it, and the word-wise transfers in and out of it. */
module Memory {

  type Bytes = seq<bv8>

  /** The bytes of a tracee that are mapped. */
  type Mem = map<int, bv8>

  const WORD: nat := 8

  /** The whole word at `a` can be transferred. */
  predicate Mapped(m: Mem, a: int) {
    forall b {:trigger b in m} :: a <= b < a + 8 ==> b in m
  }

  /** PTRACE_PEEKDATA: a word that is not mapped reads as -1. */
  function Peek(m: Mem, a: int): (w: Bytes)
    ensures |w| == WORD
    ensures forall k :: 0 <= k < 8 ==> w[k] == if Mapped(m, a) then m[a + k] else 0xFF
  {
    if Mapped(m, a) then [m[a], m[a + 1], m[a + 2], m[a + 3], m[a + 4], m[a + 5], m[a + 6], m[a + 7]]
    else [0xFF, 0xFF, 0xFF, 0xFF, 0xFF, 0xFF, 0xFF, 0xFF]
  }

  /** PTRACE_POKEDATA: a word that is not mapped stays as it is. */
  function Poke(m: Mem, a: int, w: Bytes): (m': Mem)
    requires |w| == WORD
    ensures m'.Keys == m.Keys
    ensures forall b {:trigger m'[b]} :: b in m ==> m'[b] == if Mapped(m, a) && a <= b < a + 8 then w[b - a] else m[b]
  {
    if Mapped(m, a) then map b | b in m :: if a <= b < a + 8 then w[b - a] else m[b] else m
  }

  /** The first byte of the word that byte `k` of a transfer from `addr` lies in. */
  function WordOf(addr: int, k: nat): (a: int) {
    addr + 8 * (k / 8)
  }

  /** What a transfer of `len` bytes from `addr` reads. */
  function Read(m: Mem, addr: int, len: nat): (r: Bytes)
    ensures |r| == len
    ensures forall k :: 0 <= k < len ==>
              r[k] == if Mapped(m, WordOf(addr, k)) then m[addr + k] else 0xFF
  {
    seq(len, k requires 0 <= k < len =>
      if Mapped(m, WordOf(addr, k)) then Peek(m, WordOf(addr, k))[k % 8] else 0xFF)
  }

  /** The words that a transfer of `src` writes: a last partial word is filled up from the bytes that the word
      buffer still holds, those of the word before it or, if there is none, `junk`. */
  function Padded(src: Bytes, junk: Bytes): (p: Bytes)
    requires |junk| == WORD
    ensures |p| % 8 == 0 && |src| <= |p| < |src| + 8
    ensures src == p[..|src|]
  {
    var r := |src| % 8;
    if r == 0 then src
    else if |src| < 8 then src + junk[r..]
    else src + src[|src| - 8..|src| - r]
  }

  /** What a transfer of `src` to `addr` leaves in memory. */
  function Written(m: Mem, addr: int, src: Bytes, junk: Bytes): (m': Mem)
    requires |junk| == WORD
    ensures m'.Keys == m.Keys
  {
    var p := Padded(src, junk);
    map b | b in m :: if addr <= b < addr + |p| && Mapped(m, WordOf(addr, b - addr)) then p[b - addr] else m[b]
  }

  lemma {:induction false} WordBounds(addr: int, k: nat)
    ensures WordOf(addr, k) <= addr + k < WordOf(addr, k) + 8
  {
  }

  /** One byte of what was written. */
  lemma {:induction false} WrittenByte(m: Mem, addr: int, src: Bytes, junk: Bytes, k: nat)
    requires |junk| == WORD && k < |src| && Mapped(m, WordOf(addr, k))
    ensures addr + k in m && Written(m, addr, src, junk)[addr + k] == src[k]
  {
    WordBounds(addr, k);
    assert addr + k in m;
    assert src[k] == Padded(src, junk)[..|src|][k];
    hide WordOf, Padded, Mapped;
  }

  lemma {:induction false} MappedStays(m: Mem, m': Mem, a: int)
    requires m'.Keys == m.Keys
    ensures Mapped(m', a) == Mapped(m, a)
  {
    assert forall b :: b in m' <==> b in m;
  }

  /** Writing and reading back gives the bytes written, but 0xFF where nothing is mapped. */
  lemma {:induction false} WriteThenRead(m: Mem, addr: int, src: Bytes, junk: Bytes)
    requires |junk| == WORD
    ensures Read(Written(m, addr, src, junk), addr, |src|)
         == seq(|src|, k requires 0 <= k < |src| => if Mapped(m, WordOf(addr, k)) then src[k] else 0xFF)
  {
    var m' := Written(m, addr, src, junk);
    hide WordOf, Padded, Mapped, Written, Read;
    forall k | 0 <= k < |src|
      ensures Read(m', addr, |src|)[k] == if Mapped(m, WordOf(addr, k)) then src[k] else 0xFF
    {
      MappedStays(m, m', WordOf(addr, k));
      if Mapped(m, WordOf(addr, k)) {
        WrittenByte(m, addr, src, junk, k);
      }
    }
  }

  /** Reading back gives exactly the bytes written whenever all their words are mapped. */
  lemma {:induction false} RoundTrip(m: Mem, addr: int, src: Bytes, junk: Bytes)
    requires |junk| == WORD
    requires forall k :: 0 <= k < |src| ==> Mapped(m, WordOf(addr, k))
    ensures Read(Written(m, addr, src, junk), addr, |src|) == src
  {
    WriteThenRead(m, addr, src, junk);
  }

  /** Nothing outside the words of a transfer changes. */
  lemma {:induction false} OutsideUnchanged(m: Mem, addr: int, src: Bytes, junk: Bytes, b: int)
    requires |junk| == WORD && b in m
    requires b < addr || b >= addr + 8 * ((|src| + 7) / 8)
    ensures Written(m, addr, src, junk)[b] == m[b]
  {
    assert |Padded(src, junk)| == 8 * ((|src| + 7) / 8);
  }

  /** Every byte of memory after a transfer: those of the words it writes that are mapped, with what fills up the last
      word taken from the word before it, and all others as they were. */
  lemma {:induction false} WrittenIs(m: Mem, addr: int, src: Bytes, junk: Bytes, b: int)
    requires |junk| == WORD && b in m
    ensures var k := b - addr;
            Written(m, addr, src, junk)[b] ==
              if 0 <= k < (|src| + 7) / 8 * 8 && (forall c {:trigger c in m} :: 0 <= c - addr - k / 8 * 8 < 8 ==> c in m) then
                if k < |src| then src[k] else if |src| < 8 then junk[k] else src[k - 8]
              else m[b]
  {
    var k, p := b - addr, Padded(src, junk);
    assert |p| == (|src| + 7) / 8 * 8;
    if 0 <= k < |p| {
      var a := WordOf(addr, k);
      assert a == addr + k / 8 * 8;
      assert Mapped(m, a) <==> forall c {:trigger c in m} :: 0 <= c - a < 8 ==> c in m;
      if k < |src| {
        assert p[..|src|][k] == p[k];
      } else if |src| < 8 {
        assert p[k] == junk[|src| % 8..][k - |src|];
      } else {
        assert p[k] == src[|src| - 8..|src| - |src| % 8][k - |src|];
      }
    }
  }

  /** A transfer touches no byte beyond the `len` it was asked to write, whatever it writes and wherever. */
  ghost predicate StaysWithin(len: nat) {
    forall m: Mem, addr: int, src: Bytes, junk: Bytes, b: int {:trigger Written(m, addr, src, junk), b in m} ::
      |junk| == WORD && |src| == len && b in m && (b < addr || b >= addr + len) ==> Written(m, addr, src, junk)[b] == m[b]
  }

  function Zeroed(n: nat): (m: Mem)
    ensures forall b {:trigger b in m} :: b in m <==> 0 <= b < n
    ensures forall b {:trigger m[b]} :: 0 <= b < n ==> m[b] == 0
  {
    if n == 0 then map[] else Zeroed(n - 1)[n - 1 := 0]
  }

  /** A transfer of ones into zeroed memory sets a byte beyond a length that is no whole number of words. */
  lemma {:induction false} SpillsOver(len: nat)
    requires len % 8 != 0
    ensures !StaysWithin(len)
  {
    var q := len / 8;
    var m := Zeroed(8 * q + 8);
    var src: Bytes, junk: Bytes := seq(len, _ => 1), seq(8, _ => 1);
    assert (len + 7) / 8 == q + 1 && 8 * q < len < 8 * q + 8;
    SpilledByte(m, src, junk, q);
    assert len in m && m[len] == 0;
    hide Written, Zeroed;
  }

  lemma {:induction false} SpilledByte(m: Mem, src: Bytes, junk: Bytes, q: nat)
    requires |junk| == WORD && 8 * q < |src| < 8 * q + 8 && |src| / 8 == q
    requires forall b {:trigger b in m} :: 0 <= b < 8 * q + 8 ==> b in m
    ensures |src| in m && Written(m, 0, src, junk)[|src|] == if |src| < 8 then junk[|src|] else src[|src| - 8]
  {
    assert (|src| + 7) / 8 * 8 == 8 * q + 8;
    WrittenIs(m, 0, src, junk, |src|);
    hide Written;
  }

  /** That is so exactly for whole numbers of words. */
  lemma {:induction false} ExactIffWholeWords(len: nat)
    ensures StaysWithin(len) <==> len % 8 == 0
  {
    if len % 8 == 0 {
      forall m: Mem, addr: int, src: Bytes, junk: Bytes, b: int
        | |junk| == WORD && |src| == len && b in m && (b < addr || b >= addr + len)
        ensures Written(m, addr, src, junk)[b] == m[b]
      {
        OutsideUnchanged(m, addr, src, junk, b);
      }
    } else {
      SpillsOver(len);
    }
  }

  /** Writing an IPv6 socket address, 28 bytes long, also overwrites the four bytes after it, with bytes of the
      address. */
  lemma {:induction false} AddressOfSixSpills(m: Mem, addr: int, src: Bytes, junk: Bytes)
    requires |junk| == WORD && |src| == 28 && Mapped(m, addr + 24)
    ensures forall b {:trigger b in m} :: addr + 28 <= b < addr + 32 ==>
              b in m && Written(m, addr, src, junk)[b] == src[b - addr - 8]
  {
    var p := Padded(src, junk);
    forall b {:trigger b in m} | addr + 28 <= b < addr + 32
      ensures b in m && Written(m, addr, src, junk)[b] == src[b - addr - 8]
    {
      assert WordOf(addr, b - addr) == addr + 24;
      assert p[b - addr] == src[20..24][b - addr - 28];
    }
  }

  class Tracee {
    var mem: Mem

    constructor (mem: Mem)
      ensures this.mem == mem
    {
      this.mem := mem;
    }

    method GetData(addr: int, len: nat) returns (dst: Bytes)
      ensures dst == Read(mem, addr, len)
    {
      var i, j := 0, len / WORD;
      dst := [];
      while i < j
        invariant 0 <= i <= j && dst == Read(mem, addr, 8 * i)
      {
        var data := Peek(mem, addr + i * 8);
        ReadWord(mem, addr, i, 8);
        dst := dst + data;
        i := i + 1;
      }
      j := len % WORD;
      if j != 0 {
        var data := Peek(mem, addr + i * 8);
        ReadWord(mem, addr, i, j);
        dst := dst + data[..j];
      }
    }

    method PutData(addr: int, src: Bytes, junk: Bytes)
      requires |junk| == WORD
      modifies this
      ensures mem == Written(old(mem), addr, src, junk)
    {
      var i, j, data := 0, |src| / WORD, junk;
      ghost var m := mem;
      WrittenNone(m, addr, junk);
      while i < j
        invariant 0 <= i <= j && |data| == WORD && data == (if i == 0 then junk else src[8 * (i - 1)..8 * i])
        invariant mem == Written(m, addr, src[..8 * i], junk)
      {
        data := src[8 * i..8 * i + 8];
        WriteWord(m, addr, src, junk, i, data);
        mem := Poke(mem, addr + i * 8, data);
        i := i + 1;
      }
      j := |src| % WORD;
      if j != 0 {
        data := src[8 * i..] + data[j..];
        WriteLast(m, addr, src, junk, i, data);
        mem := Poke(mem, addr + i * 8, data);
      } else {
        assert src[..8 * i] == src;
      }
    }
  }

  lemma {:induction false} ReadWord(m: Mem, addr: int, i: nat, n: nat)
    requires 0 < n <= 8
    ensures Read(m, addr, 8 * i + n) == Read(m, addr, 8 * i) + Peek(m, addr + i * 8)[..n]
  {
    var r := Read(m, addr, 8 * i + n);
    forall k | 0 <= k < 8 * i + n
      ensures r[k] == (Read(m, addr, 8 * i) + Peek(m, addr + i * 8)[..n])[k]
    {
      if k >= 8 * i {
        assert WordOf(addr, k) == addr + i * 8;
        if Mapped(m, addr + i * 8) {
          assert addr + k in m;
        }
      }
    }
  }

  lemma {:induction false} WrittenNone(m: Mem, addr: int, junk: Bytes)
    requires |junk| == WORD
    ensures Written(m, addr, [], junk) == m
  {
  }

  lemma {:induction false} WriteWord(m: Mem, addr: int, src: Bytes, junk: Bytes, i: nat, data: Bytes)
    requires |junk| == WORD && 8 * i + 8 <= |src| && data == src[8 * i..8 * i + 8]
    ensures Poke(Written(m, addr, src[..8 * i], junk), addr + i * 8, data) == Written(m, addr, src[..8 * (i + 1)], junk)
  {
    hide Written, Poke, Mapped;
    assert src[..8 * (i + 1)] == src[..8 * i] + data;
    PokeWord(m, addr, src[..8 * i], data, junk, src[..8 * (i + 1)], i);
  }

  lemma {:induction false} WriteLast(m: Mem, addr: int, src: Bytes, junk: Bytes, i: nat, data: Bytes)
    requires |junk| == WORD && 8 * i < |src| < 8 * i + 8
    requires data == src[8 * i..] + (if i == 0 then junk else src[8 * (i - 1)..8 * i])[|src| % 8..]
    ensures |data| == 8 && Poke(Written(m, addr, src[..8 * i], junk), addr + i * 8, data) == Written(m, addr, src, junk)
  {
    hide Written, Poke, Mapped;
    LastWord(src, junk, i, |src| - 8 * i, data);
    PokeWord(m, addr, src[..8 * i], data, junk, src, i);
  }

  lemma {:induction false} Remainder(n: nat, i: nat, r: nat)
    requires n == 8 * i + r && r < 8
    ensures n % 8 == r && n / 8 == i
  {
  }

  lemma {:induction false} LastWord(src: Bytes, junk: Bytes, i: nat, r: nat, data: Bytes)
    requires |junk| == WORD && |src| == 8 * i + r && 0 < r < 8
    requires data == src[8 * i..] + (if i == 0 then junk else src[8 * (i - 1)..8 * i])[|src| % 8..]
    ensures |data| == 8 && Padded(src, junk) == src[..8 * i] + data
  {
    Remainder(|src|, i, r);
    assert src == src[..8 * i] + src[8 * i..];
    if i > 0 {
      assert src[8 * (i - 1)..8 * i][r..] == src[|src| - 8..|src| - r];
    }
  }

  /** One more word after `i` whole words. */
  lemma {:induction false} PokeWord(m: Mem, addr: int, done: Bytes, data: Bytes, junk: Bytes, src: Bytes, i: nat)
    requires |junk| == |data| == 8 && |done| == 8 * i && Padded(src, junk) == done + data
    ensures Poke(Written(m, addr, done, junk), addr + i * 8, data) == Written(m, addr, src, junk)
  {
    hide Written, Poke, Mapped, Padded, WordOf;
    var m2, m3 := Poke(Written(m, addr, done, junk), addr + i * 8, data), Written(m, addr, src, junk);
    forall b | b in m
      ensures m2[b] == m3[b]
    {
      PokeWordAt(m, addr, done, data, junk, src, i, b);
    }
  }

  lemma {:induction false} WordAt(addr: int, i: nat, b: int)
    requires addr + i * 8 <= b < addr + i * 8 + 8
    ensures WordOf(addr, b - addr) == addr + i * 8
  {
  }

  lemma {:induction false} WholeWords(done: Bytes, junk: Bytes, i: nat)
    requires |junk| == WORD && |done| == 8 * i
    ensures Padded(done, junk) == done
  {
  }

  lemma {:induction false} PokeWordAt(m: Mem, addr: int, done: Bytes, data: Bytes, junk: Bytes, src: Bytes, i: nat,
                                      b: int)
    requires |junk| == |data| == 8 && |done| == 8 * i && Padded(src, junk) == done + data && b in m
    ensures Poke(Written(m, addr, done, junk), addr + i * 8, data)[b] == Written(m, addr, src, junk)[b]
  {
    hide WordOf, Padded;
    var m1, a := Written(m, addr, done, junk), addr + i * 8;
    WholeWords(done, junk, i);
    assert Mapped(m1, a) == Mapped(m, a);
    hide Mapped;
    if a <= b < a + 8 {
      WordAt(addr, i, b);
      assert (done + data)[b - addr] == data[b - a];
    } else if addr <= b < a {
      assert (done + data)[b - addr] == done[b - addr];
    }
  }
}
