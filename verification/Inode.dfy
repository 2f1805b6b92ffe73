/** From the two addresses of an accepted connection to the inode of the socket at its other end: the hexadecimal
    endpoints of /proc/net/tcp and the search for the row that has both. */
module Inode {
  import opened Text
  import opened Lines
  import opened Options

  type Byte = b: nat | b < 256
  type IP = seq<Byte>

  function HexDigit(d: nat): (c: char)
    requires d < 16
    ensures c as int == if d < 10 then '0' as int + d else 'A' as int + (d - 10)
  {
    "0123456789ABCDEF"[d]
  }

  /** The digits of `%X`. */
  function Hex(n: nat): (s: string) {
    if n < 16 then [HexDigit(n)] else Hex(n / 16) + [HexDigit(n % 16)]
  }

  function Zeros(k: nat): (s: string)
    ensures |s| == k
  {
    if k == 0 then [] else ['0'] + Zeros(k - 1)
  }

  function Pad(s: string, width: nat): (r: string) {
    if |s| >= width then s else Zeros(width - |s|) + s
  }

  /** `%0<width>X` of an integer. */
  function FmtX(n: int, width: nat): (s: string)
    requires width > 0
  {
    if n < 0 then "-" + Pad(Hex(-n), width - 1) else Pad(Hex(n), width)
  }

  /** Exactly `w` hexadecimal digits. */
  function Fixed(n: nat, w: nat): (s: string)
    ensures |s| == w && ':' !in s
  {
    if w == 0 then [] else Fixed(n / 16, w - 1) + [HexDigit(n % 16)]
  }

  /** The number that upper-case hexadecimal digits read as. */
  predicate HexDigits(s: string) {
    forall i :: 0 <= i < |s| ==> '0' <= s[i] <= '9' || 'A' <= s[i] <= 'F'
  }

  function HexValue(s: string): (n: nat)
    requires HexDigits(s)
  {
    if s == [] then 0 else
      var c := s[|s| - 1];
      16 * HexValue(s[..|s| - 1]) + if c <= '9' then (c - '0') as nat else 10 + (c - 'A') as nat
  }

  /** The digits of a number that fits read as the number. */
  lemma {:induction false} ValueOfFixed(n: nat, w: nat)
    requires n < Pow16(w)
    ensures |Fixed(n, w)| == w && HexDigits(Fixed(n, w)) && HexValue(Fixed(n, w)) == n
  {
    if w > 0 {
      ValueOfFixed(n / 16, w - 1);
      var s := Fixed(n, w);
      assert s[..w - 1] == Fixed(n / 16, w - 1) && s[w - 1] == HexDigit(n % 16);
    }
  }

  function Pow16(w: nat): (p: nat)
    ensures p > 0
  {
    if w == 0 then 1 else 16 * Pow16(w - 1)
  }

  lemma {:induction false} FixedZero(w: nat)
    ensures Fixed(0, w) == Zeros(w)
  {
    if w > 0 {
      FixedZero(w - 1);
      ZerosSnoc(w - 1);
    }
  }

  lemma {:induction false} ZerosSnoc(k: nat)
    ensures Zeros(k) + ['0'] == Zeros(k + 1)
  {
    if k > 0 {
      ZerosSnoc(k - 1);
    }
  }

  /** A number that fits is printed with exactly the digits asked for. */
  lemma {:induction false} FmtIsFixed(n: nat, w: nat)
    requires w > 0 && n < Pow16(w)
    ensures FmtX(n, w) == Fixed(n, w)
  {
    PadIsFixed(n, w);
  }

  lemma {:induction false} PadIsFixed(n: nat, w: nat)
    requires w > 0 && n < Pow16(w)
    ensures |Hex(n)| <= w && Pad(Hex(n), w) == Fixed(n, w)
  {
    if n < 16 {
      FixedZero(w - 1);
      assert n / 16 == 0;
    } else {
      assert w > 1;
      PadIsFixed(n / 16, w - 1);
      assert Zeros(w - |Hex(n)|) + (Hex(n / 16) + [HexDigit(n % 16)]) == (Zeros(w - |Hex(n)|) + Hex(n / 16)) + [HexDigit(n % 16)];
    }
  }

  lemma {:induction false} HexDigitInjective(a: nat, b: nat)
    requires a < 16 && b < 16 && HexDigit(a) == HexDigit(b)
    ensures a == b
  {
  }

  lemma {:induction false} FixedInjective(a: nat, b: nat, w: nat)
    requires a < Pow16(w) && b < Pow16(w) && Fixed(a, w) == Fixed(b, w)
    ensures a == b
  {
    if w > 0 {
      var s, t := Fixed(a, w), Fixed(b, w);
      assert s[..w - 1] == Fixed(a / 16, w - 1) && t[..w - 1] == Fixed(b / 16, w - 1);
      assert s[w - 1] == HexDigit(a % 16) && t[w - 1] == HexDigit(b % 16);
      HexDigitInjective(a % 16, b % 16);
      FixedInjective(a / 16, b / 16, w - 1);
    }
  }

  /** binary.BigEndian.Uint32 */
  function BigWord(w: IP): (n: nat)
    requires |w| == 4
    ensures n < Pow16(8)
  {
    assert Pow16(8) == 0x1_0000_0000 by { assert Pow16(2) == 256 && Pow16(4) == 65536 && Pow16(6) == 0x100_0000; }
    var a: int, b: int, c: int, d: int := w[0], w[1], w[2], w[3];
    0x100_0000 * a + 0x1_0000 * b + 0x100 * c + d
  }

  /** The same four bytes as the kernel of a little-endian machine loads them. */
  function LittleWord(w: IP): (n: nat)
    requires |w| == 4
    ensures n < Pow16(8)
  {
    BigWord([w[3], w[2], w[1], w[0]])
  }

  function To4(ip: IP): (r: Option<IP>) {
    if |ip| == 4 then Some(ip)
    else if |ip| == 16 && ip[..10] == [0, 0, 0, 0, 0, 0, 0, 0, 0, 0] && ip[10] == 255 && ip[11] == 255 then Some(ip[12..16])
    else None
  }

  function Ip2Int(ip: IP): (n: nat)
    requires |ip| == 4 || |ip| == 16
  {
    if |ip| == 16 then BigWord(ip[12..16]) else BigWord(ip)
  }

  /** The pairs of hexadecimal digits of one word, turned around. */
  function Turned(h: string): (r: string)
    requires |h| >= 6
  {
    h[6..] + h[4..6] + h[2..4] + h[..2]
  }

  lemma {:induction false} WideEnough(n: nat)
    ensures |FmtX(n, 8)| >= 8
  {
  }

  function Ip2Hex(ip: IP): (s: string)
    requires |ip| == 4 || |ip| == 16
  {
    if To4(ip).Some? then
      WideEnough(Ip2Int(ip));
      Turned(FmtX(Ip2Int(ip), 8))
    else
      WideEnough(BigWord(ip[..4])); WideEnough(BigWord(ip[4..8])); WideEnough(BigWord(ip[8..12])); WideEnough(BigWord(ip[12..16]));
      Turned(FmtX(BigWord(ip[..4]), 8)) + Turned(FmtX(BigWord(ip[4..8]), 8)) +
      Turned(FmtX(BigWord(ip[8..12]), 8)) + Turned(FmtX(BigWord(ip[12..16]), 8))
  }

  /** The form of an address in /proc/net/tcp and /proc/net/tcp6: every 32-bit word as `%08X` of its little-endian
      value. */
  function KernelHex(ip: IP): (s: string)
    requires |ip| % 4 == 0
  {
    if ip == [] then [] else Fixed(LittleWord(ip[..4]), 8) + KernelHex(ip[4..])
  }

  function Pair(b: Byte): (s: string)
    ensures |s| == 2
  {
    [HexDigit(b / 16), HexDigit(b % 16)]
  }

  lemma {:induction false} FixedSnoc(n: nat, b: Byte, w: nat)
    ensures Fixed(256 * n + b, w + 2) == Fixed(n, w) + Pair(b)
  {
    var m := 256 * n + b;
    assert m % 16 == b % 16 && m / 16 == 16 * n + b / 16;
    assert (m / 16) % 16 == b / 16 && m / 16 / 16 == n;
    assert Fixed(m, w + 2) == Fixed(m / 16, w + 1) + [HexDigit(b % 16)];
    assert Fixed(m / 16, w + 1) == Fixed(n, w) + [HexDigit(b / 16)];
  }

  lemma {:induction false} BigPairs(w: IP)
    requires |w| == 4
    ensures Fixed(BigWord(w), 8) == Pair(w[0]) + Pair(w[1]) + Pair(w[2]) + Pair(w[3])
  {
    hide Fixed;
    var n1: nat := w[0];
    var n2: nat := 256 * n1 + w[1] as nat;
    var n3: nat := 256 * n2 + w[2] as nat;
    assert BigWord(w) == 256 * n3 + w[3] as nat;
    assert Fixed(0, 0) == [] by { FixedZero(0); }
    FixedSnoc(n3, w[3], 6);
    FixedSnoc(n2, w[2], 4);
    FixedSnoc(n1, w[1], 2);
    FixedSnoc(0, w[0], 0);
  }

  /** Turning the printed big-endian word around is printing the little-endian word. */
  lemma {:induction false} TurnedIsLittle(w: IP)
    requires |w| == 4
    ensures |FmtX(BigWord(w), 8)| == 8 && Turned(FmtX(BigWord(w), 8)) == Fixed(LittleWord(w), 8)
  {
    FmtIsFixed(BigWord(w), 8);
    BigPairs(w);
    BigPairs([w[3], w[2], w[1], w[0]]);
    var h := Fixed(BigWord(w), 8);
    assert h[..2] == Pair(w[0]) && h[2..4] == Pair(w[1]) && h[4..6] == Pair(w[2]) && h[6..] == Pair(w[3]);
  }

  lemma {:induction false} KernelHexWord(ip: IP)
    requires |ip| == 4
    ensures KernelHex(ip) == Fixed(LittleWord(ip), 8)
  {
    assert ip[..4] == ip && ip[4..] == [];
    assert KernelHex([]) == [];
    hide Fixed, LittleWord;
  }

  lemma {:induction false} KernelHexWords(ip: IP)
    requires |ip| == 16
    ensures KernelHex(ip) == Fixed(LittleWord(ip[..4]), 8) + Fixed(LittleWord(ip[4..8]), 8)
                             + Fixed(LittleWord(ip[8..12]), 8) + Fixed(LittleWord(ip[12..16]), 8)
  {
    hide Fixed, LittleWord;
    var b, c, d := ip[4..], ip[8..], ip[12..];
    assert ip[12..16] == d && b[4..] == c && c[4..] == d && b[..4] == ip[4..8] && c[..4] == ip[8..12];
    KernelHexWord(d);
    assert KernelHex(c) == Fixed(LittleWord(c[..4]), 8) + KernelHex(c[4..]);
    assert KernelHex(b) == Fixed(LittleWord(b[..4]), 8) + KernelHex(b[4..]);
    assert KernelHex(ip) == Fixed(LittleWord(ip[..4]), 8) + KernelHex(b);
    hide KernelHex;
  }

  /** The four bytes of `w` in the kernel's form: eight digits that read as the little-endian value of the word. */
  lemma {:induction false} KernelHexReads(w: IP)
    requires |w| == 4
    ensures |KernelHex(w)| == 8 && HexDigits(KernelHex(w))
    ensures HexValue(KernelHex(w)) == w[0] as int + 0x100 * w[1] as int + 0x1_0000 * w[2] as int + 0x100_0000 * w[3] as int
  {
    KernelHexWord(w);
    var n := LittleWord(w);
    assert n == w[0] as int + 0x100 * w[1] as int + 0x1_0000 * w[2] as int + 0x100_0000 * w[3] as int;
    ValueOfFixed(n, 8);
  }

  /** Every word of an address on its own. */
  lemma {:induction false} KernelHexByWord(ip: IP)
    requires |ip| == 16
    ensures KernelHex(ip) == KernelHex(ip[..4]) + KernelHex(ip[4..8]) + KernelHex(ip[8..12]) + KernelHex(ip[12..])
  {
    KernelHexWords(ip);
    KernelHexWord(ip[..4]);
    KernelHexWord(ip[4..8]);
    KernelHexWord(ip[8..12]);
    KernelHexWord(ip[12..]);
    assert ip[12..] == ip[12..16];
  }

  /** One word of the address proper for the one family. */
  lemma {:induction false} Ip2HexFour(ip: IP, v: IP)
    requires (|ip| == 4 || |ip| == 16) && To4(ip) == Some(v) && v == ip[|ip| - 4..]
    ensures Ip2Hex(ip) == KernelHex(v) && |Ip2Hex(ip)| == 8 && ':' !in Ip2Hex(ip)
  {
    assert |ip| == 4 ==> v == ip;
    assert |ip| == 16 ==> ip[12..16] == v;
    assert Ip2Int(ip) == BigWord(v);
    TurnedIsLittle(v);
    KernelHexWord(v);
    hide Fixed, LittleWord, KernelHex, Turned, FmtX, BigWord;
  }

  /** Four words for the other. */
  lemma {:induction false} Ip2HexSixteen(ip: IP)
    requires |ip| == 16 && To4(ip).None?
    ensures Ip2Hex(ip) == KernelHex(ip) && |Ip2Hex(ip)| == 32 && ':' !in Ip2Hex(ip)
  {
    TurnedIsLittle(ip[..4]);
    TurnedIsLittle(ip[4..8]);
    TurnedIsLittle(ip[8..12]);
    TurnedIsLittle(ip[12..16]);
    KernelHexWords(ip);
    hide Fixed, LittleWord, KernelHex, Turned, FmtX, BigWord;
  }

  lemma {:induction false} To4Splits(ip: IP)
    requires |ip| == 16
    ensures To4(ip) == if ip[..12] == [0, 0, 0, 0, 0, 0, 0, 0, 0, 0, 255, 255] then Some(ip[12..]) else None
  {
    var zeros: IP := [0, 0, 0, 0, 0, 0, 0, 0, 0, 0];
    var prefix: IP := [0, 0, 0, 0, 0, 0, 0, 0, 0, 0, 255, 255];
    assert ip[..12][..10] == ip[..10] && prefix[..10] == zeros;
    assert ip[12..16] == ip[12..];
    if ip[..10] == zeros && ip[10] == 255 && ip[11] == 255 {
      assert ip[..12] == ip[..10] + [ip[10], ip[11]] == prefix;
    }
    if ip[..12] == prefix {
      assert ip[..12][10] == ip[10] == 255 && ip[..12][11] == ip[11] == 255;
    }
  }

  /** ip2Hex prints exactly what the kernel prints: an IPv4 address, which has a prefix in its 16-byte form, as one word,
      and any other address as four. */
  lemma {:induction false} Ip2HexIsKernelHex(ip: IP)
    requires |ip| == 4 || |ip| == 16
    ensures |ip| == 4 ==> Ip2Hex(ip) == KernelHex(ip) && |Ip2Hex(ip)| == 8
    ensures |ip| == 16 && ip[..12] == [0, 0, 0, 0, 0, 0, 0, 0, 0, 0, 255, 255] ==>
              Ip2Hex(ip) == KernelHex(ip[12..]) && |Ip2Hex(ip)| == 8
    ensures |ip| == 16 && ip[..12] != [0, 0, 0, 0, 0, 0, 0, 0, 0, 0, 255, 255] ==>
              Ip2Hex(ip) == KernelHex(ip) && |Ip2Hex(ip)| == 32
    ensures ':' !in Ip2Hex(ip)
  {
    if |ip| == 4 {
      assert ip[0..] == ip;
      Ip2HexFour(ip, ip);
    } else {
      To4Splits(ip);
      hide To4, Ip2Hex, KernelHex;
      if To4(ip).Some? {
        Ip2HexFour(ip, ip[12..]);
      } else {
        Ip2HexSixteen(ip);
      }
    }
  }

  lemma {:induction false} LastByte(x: nat, b: Byte, y: nat, c: Byte)
    requires 256 * x + b as nat == 256 * y + c as nat
    ensures x == y && b == c
  {
  }

  lemma {:induction false} BigInjective(a: IP, b: IP)
    requires |a| == |b| == 4 && BigWord(a) == BigWord(b)
    ensures a == b
  {
    var a1: nat, b1: nat := a[0], b[0];
    var a2, b2 := 256 * a1 + a[1] as nat, 256 * b1 + b[1] as nat;
    var a3, b3 := 256 * a2 + a[2] as nat, 256 * b2 + b[2] as nat;
    assert BigWord(a) == 256 * a3 + a[3] as nat && BigWord(b) == 256 * b3 + b[3] as nat;
    LastByte(a3, a[3], b3, b[3]);
    LastByte(a2, a[2], b2, b[2]);
    LastByte(a1, a[1], b1, b[1]);
  }

  lemma {:induction false} LittleInjective(a: IP, b: IP)
    requires |a| == |b| == 4 && LittleWord(a) == LittleWord(b)
    ensures a == b
  {
    var ra, rb: IP := [a[3], a[2], a[1], a[0]], [b[3], b[2], b[1], b[0]];
    BigInjective(ra, rb);
    assert ra[0] == rb[0] && ra[1] == rb[1] && ra[2] == rb[2] && ra[3] == rb[3];
  }

  lemma {:induction false} KernelHexLength(ip: IP)
    requires |ip| % 4 == 0
    ensures |KernelHex(ip)| == 2 * |ip| && ':' !in KernelHex(ip)
  {
    if ip != [] {
      KernelHexLength(ip[4..]);
    }
  }

  /** Two addresses of one family never share a hexadecimal form. */
  lemma {:induction false} KernelHexInjective(a: IP, b: IP)
    requires |a| % 4 == 0 && |a| == |b| && KernelHex(a) == KernelHex(b)
    ensures a == b
  {
    hide Fixed, LittleWord, Pow16;
    if a != [] {
      var s, t := KernelHex(a), KernelHex(b);
      assert s[..8] == Fixed(LittleWord(a[..4]), 8) && t[..8] == Fixed(LittleWord(b[..4]), 8);
      assert s[8..] == KernelHex(a[4..]) && t[8..] == KernelHex(b[4..]);
      FixedInjective(LittleWord(a[..4]), LittleWord(b[..4]), 8);
      LittleInjective(a[..4], b[..4]);
      KernelHexInjective(a[4..], b[4..]);
      assert a == a[..4] + a[4..] && b == b[..4] + b[4..];
    }
  }

  /** strconv.Atoi, without the digits that do not fit into 64 bits. */
  function Atoi(s: string): (n: Option<int>) {
    var neg := s != [] && s[0] == '-';
    var t := if s != [] && (s[0] == '-' || s[0] == '+') then s[1..] else s;
    if t == [] || !Digits(t) then None
    else
      var v: int := if neg then -(Value(t) as int) else Value(t);
      if -0x8000_0000_0000_0000 <= v < 0x8000_0000_0000_0000 then Some(v) else None
  }

  function HexPort(port: string): (h: Option<string>) {
    match Atoi(port) case None => None case Some(n) => Some(FmtX(n, 4))
  }

  /** An optional sign and at least one digit, of a number that fits into 64 bits; nothing else is a number. */
  lemma {:induction false} AtoiIs(s: string, t: string)
    requires Digits(t) && t != ""
    ensures Atoi(t) == Atoi("+" + t) == if Value(t) < 0x8000_0000_0000_0000 then Some(Value(t)) else None
    ensures Atoi("-" + t) == if Value(t) <= 0x8000_0000_0000_0000 then Some(-(Value(t) as int)) else None
    ensures Atoi(s).Some? ==> s != "" && (Digits(s) || ((s[0] == '-' || s[0] == '+') && Digits(s[1..]) && |s| > 1))
  {
    assert ("+" + t)[1..] == t && ("-" + t)[1..] == t && '0' <= t[0] <= '9';
    var u := if s != "" && (s[0] == '-' || s[0] == '+') then s[1..] else s;
    assert Atoi(s).Some? ==> u != "" && Digits(u);
    hide Value, Atoi, Digits;
  }

  /** A negative port keeps its sign, and three digits at least. */
  lemma {:induction false} HexPortOfNegative(n: nat)
    requires 0 < n < 4096
    ensures HexPort("-" + Dec(n)) == Some("-" + Fixed(n, 3))
  {
    AtoiIs("", Dec(n));
    ValueOfDec(n);
    assert Pow16(3) == 4096 by { assert Pow16(1) == 16 && Pow16(2) == 256; }
    PadIsFixed(n, 3);
    hide Atoi, Dec, Pad, Hex, Fixed, Value, Pow16;
  }

  lemma {:induction false} AtoiOfDec(n: nat)
    requires n < 0x8000_0000_0000_0000
    ensures Atoi(Dec(n)) == Some(n)
  {
    ValueOfDec(n);
    var s := Dec(n);
    assert '0' <= s[0] <= '9';
    hide Dec, Value;
  }

  /** A port in range, in decimal, becomes its four hexadecimal digits. */
  lemma {:induction false} HexPortOfDec(p: nat)
    requires p < 65536
    ensures HexPort(Dec(p)) == Some(Fixed(p, 4))
    ensures var h := Fixed(p, 4); |h| == 4 && HexDigits(h) && HexValue(h) == p
  {
    AtoiOfDec(p);
    assert Pow16(4) == 65536 by { assert Pow16(2) == 256; }
    hide Atoi, Dec, FmtX, Fixed, Pow16, HexDigits, HexValue;
    FmtIsFixed(p, 4);
    ValueOfFixed(p, 4);
  }

  /** One end of a connection as the kernel's table shows it. */
  function EndHex(ip: IP, port: nat): (s: string)
    requires |ip| % 4 == 0
  {
    KernelHex(ip) + ":" + Fixed(port, 4)
  }

  lemma {:induction false} EndHexInjective(a: IP, p: nat, b: IP, q: nat)
    requires |a| == |b| && |a| % 4 == 0 && p < 65536 && q < 65536 && EndHex(a, p) == EndHex(b, q)
    ensures a == b && p == q
  {
    KernelHexLength(a);
    KernelHexLength(b);
    var n := 2 * |a|;
    assert EndHex(a, p)[..n] == KernelHex(a) && EndHex(b, q)[..n] == KernelHex(b);
    assert EndHex(a, p)[n + 1..] == Fixed(p, 4) && EndHex(b, q)[n + 1..] == Fixed(q, 4);
    KernelHexInjective(a, b);
    assert Pow16(4) == 65536 by { assert Pow16(2) == 256; }
    FixedInjective(p, q, 4);
  }

  lemma {:induction false} ContainsSameLength(s: string, t: string)
    requires |s| == |t|
    ensures Contains(s, t) <==> s == t
  {
    ContainsIsOccurs(s, t);
    if Occurs(s, t) {
      var i :| OccursAt(s, t, i);
      assert s[0..|t|] == s;
    }
    if s == t {
      assert OccursAt(s, t, 0) by { assert s[0..0 + |t|] == s; }
    }
  }

  /** Within one family the substring test of the search is equality of the endpoints. */
  lemma {:induction false} ContainsIsEquality(a: IP, p: nat, b: IP, q: nat)
    requires |a| == |b| && |a| % 4 == 0 && p < 65536 && q < 65536
    ensures Contains(EndHex(a, p), EndHex(b, q)) <==> a == b && p == q
  {
    KernelHexLength(a);
    KernelHexLength(b);
    ContainsSameLength(EndHex(a, p), EndHex(b, q));
    if EndHex(a, p) == EndHex(b, q) {
      EndHexInjective(a, p, b, q);
    }
  }

  /** An IPv4 endpoint found in a row of the IPv6 table says something about the last 32 bits only. */
  lemma {:induction false} ContainsAcrossFamilies(a: IP, p: nat, b: IP, q: nat)
    requires |a| == 16 && |b| == 4 && p < 65536 && q < 65536
    ensures Contains(EndHex(a, p), EndHex(b, q)) <==> a[12..] == b && p == q
  {
    var s, t := EndHex(a, p), EndHex(b, q);
    KernelHexTail(a);
    KernelHexLength(a);
    KernelHexLength(b);
    assert s[24..] == EndHex(a[12..], p);
    ContainsIsOccurs(s, t);
    if Occurs(s, t) {
      var i :| OccursAt(s, t, i);
      assert s[i + 8] == s[i..i + |t|][8] == t[8] == ':';
      ColonAt(a, p, i + 8);
      assert s[24..24 + |t|] == s[24..];
      EndHexInjective(a[12..], p, b, q);
    }
    if a[12..] == b && p == q {
      assert s[24..24 + |t|] == s[24..];
      assert OccursAt(s, t, 24);
    }
  }

  lemma {:induction false} KernelHexTail(a: IP)
    requires |a| == 16
    ensures |KernelHex(a)| == 32 && KernelHex(a)[24..] == KernelHex(a[12..])
  {
    KernelHexLength(a);
    assert KernelHex(a) == Fixed(LittleWord(a[..4]), 8) + KernelHex(a[4..]);
    assert KernelHex(a[4..]) == Fixed(LittleWord(a[4..][..4]), 8) + KernelHex(a[4..][4..]);
    assert a[4..][4..] == a[8..];
    assert KernelHex(a[8..]) == Fixed(LittleWord(a[8..][..4]), 8) + KernelHex(a[8..][4..]);
    assert a[8..][4..] == a[12..];
  }

  lemma {:induction false} ColonAt(a: IP, p: nat, i: nat)
    requires |a| % 4 == 0 && i < |EndHex(a, p)| && EndHex(a, p)[i] == ':'
    ensures i == 2 * |a|
  {
    KernelHexLength(a);
    var s := EndHex(a, p);
    assert forall j :: 0 <= j < 2 * |a| ==> s[j] == KernelHex(a)[j] && KernelHex(a)[j] in KernelHex(a);
    assert forall j :: 2 * |a| < j < |s| ==> s[j] == Fixed(p, 4)[j - 2 * |a| - 1] && s[j] in Fixed(p, 4);
  }

  /** A line of the table, split at white space. */
  type Row = seq<string>

  predicate Matches(row: Row, localHex: string, remoteHex: string) {
    |row| >= 10 && Contains(row[1], localHex) && Contains(row[2], remoteHex)
  }

  /** The inode of the first row that has both endpoints, or nothing. */
  function FirstMatch(rows: seq<Row>, localHex: string, remoteHex: string): (inode: string) {
    if rows == [] then ""
    else if Matches(rows[0], localHex, remoteHex) then rows[0][9]
    else FirstMatch(rows[1..], localHex, remoteHex)
  }

  /** Row `k` is long enough and contains both endpoints, and no row before it does. */
  lemma {:induction false} FirstMatchAt(rows: seq<Row>, localHex: string, remoteHex: string) returns (k: nat)
    ensures k <= |rows|
    ensures forall j :: 0 <= j < k ==> !(|rows[j]| >= 10 && Contains(rows[j][1], localHex) && Contains(rows[j][2], remoteHex))
    ensures k < |rows| ==> |rows[k]| >= 10 && Contains(rows[k][1], localHex) && Contains(rows[k][2], remoteHex)
    ensures FirstMatch(rows, localHex, remoteHex) == if k < |rows| then rows[k][9] else ""
  {
    hide Contains;
    k := 0;
    if rows != [] && !Matches(rows[0], localHex, remoteHex) {
      var i := FirstMatchAt(rows[1..], localHex, remoteHex);
      k := i + 1;
      forall j | 0 <= j < k
        ensures !(|rows[j]| >= 10 && Contains(rows[j][1], localHex) && Contains(rows[j][2], remoteHex))
      {
        assert j > 0 ==> rows[j] == rows[1..][j - 1];
      }
    }
  }

  /** The search below the header line of the table, for the first line of at least ten fields that has both. */
  method GetInode(rows: seq<Row>, localHex: string, remoteHex: string) returns (inode: string, ghost k: nat)
    ensures inode == if rows == [] then "" else FirstMatch(rows[1..], localHex, remoteHex)
    ensures 1 <= k && inode == if k < |rows| && |rows[k]| >= 10 then rows[k][9] else ""
    ensures k < |rows| ==> |rows[k]| >= 10 && Contains(rows[k][1], localHex) && Contains(rows[k][2], remoteHex)
    ensures forall j :: 1 <= j < k && j < |rows| ==>
              !(|rows[j]| >= 10 && Contains(rows[j][1], localHex) && Contains(rows[j][2], remoteHex))
  {
    hide Contains;
    k := 1;
    if |rows| == 0 {
      return "", 1;
    }
    var i := 1;
    while i < |rows|
      invariant 1 <= i == k <= |rows|
      invariant FirstMatch(rows[1..], localHex, remoteHex) == FirstMatch(rows[i..], localHex, remoteHex)
      invariant forall j :: 1 <= j < i ==>
                  !(|rows[j]| >= 10 && Contains(rows[j][1], localHex) && Contains(rows[j][2], remoteHex))
    {
      var fields := rows[i];
      assert rows[i..][1..] == rows[i + 1..];
      if |fields| < 10 {
        i, k := i + 1, k + 1;
        continue;
      }
      if Contains(fields[1], localHex) && Contains(fields[2], remoteHex) {
        return fields[9], i;
      }
      i, k := i + 1, k + 1;
    }
    return "", k;
  }

  /** What one row of the table says. */
  datatype RowEntry = RowEntry(localIP: IP, localPort: nat, remoteIP: IP, remotePort: nat, inode: string)

  /** `row` is the line of a well-formed table of addresses of `n` bytes that says `e`. */
  ghost predicate RowOf(row: Row, e: RowEntry, n: nat)
    requires n % 4 == 0
  {
    && |row| >= 10 && |e.localIP| == |e.remoteIP| == n && e.localPort < 65536 && e.remotePort < 65536
    && row[1] == EndHex(e.localIP, e.localPort) && row[2] == EndHex(e.remoteIP, e.remotePort) && row[9] == e.inode
  }

  predicate Says(e: RowEntry, local: IP, localPort: nat, remote: IP, remotePort: nat) {
    e.localIP == local && e.localPort == localPort && e.remoteIP == remote && e.remotePort == remotePort
  }

  function FirstInode(es: seq<RowEntry>, local: IP, localPort: nat, remote: IP, remotePort: nat): (inode: string) {
    if es == [] then "" else if Says(es[0], local, localPort, remote, remotePort) then es[0].inode
    else FirstInode(es[1..], local, localPort, remote, remotePort)
  }

  /** The entry that the inode is taken from: the first one with exactly these two ends. */
  lemma {:induction false} FirstInodeAt(es: seq<RowEntry>, local: IP, localPort: nat, remote: IP, remotePort: nat)
    returns (k: nat)
    ensures k <= |es|
    ensures forall j :: 0 <= j < k ==>
              es[j].(inode := "") != RowEntry(local, localPort, remote, remotePort, "")
    ensures k < |es| ==> es[k].(inode := "") == RowEntry(local, localPort, remote, remotePort, "")
    ensures FirstInode(es, local, localPort, remote, remotePort) == if k < |es| then es[k].inode else ""
  {
    k := 0;
    if es != [] && !Says(es[0], local, localPort, remote, remotePort) {
      var i := FirstInodeAt(es[1..], local, localPort, remote, remotePort);
      k := i + 1;
      forall j | 0 <= j < k
        ensures es[j].(inode := "") != RowEntry(local, localPort, remote, remotePort, "")
      {
        assert j > 0 ==> es[j] == es[1..][j - 1];
      }
    }
  }

  /** Over a well-formed table the search answers with the first entry that has exactly the two endpoints. */
  lemma {:induction false} FirstMatchIsFirstInode(rows: seq<Row>, es: seq<RowEntry>, n: nat, local: IP, localPort: nat,
                                                  remote: IP, remotePort: nat)
    requires n % 4 == 0 && |rows| == |es| && forall i :: 0 <= i < |es| ==> RowOf(rows[i], es[i], n)
    requires |local| == |remote| == n && localPort < 65536 && remotePort < 65536
    ensures FirstMatch(rows, EndHex(local, localPort), EndHex(remote, remotePort))
         == FirstInode(es, local, localPort, remote, remotePort)
  {
    if es != [] {
      var e := es[0];
      ContainsIsEquality(e.localIP, e.localPort, local, localPort);
      ContainsIsEquality(e.remoteIP, e.remotePort, remote, remotePort);
      FirstMatchIsFirstInode(rows[1..], es[1..], n, local, localPort, remote, remotePort);
    }
  }

  datatype Lookup = Inode(inode: string) | Failed | Panicked

  function SplitAddr(addr: string, six: bool): (e: Endpoint) {
    if six then SplitAddrIPv6(addr) else SplitAddrIPv4(addr)
  }

  function HexIPAddr(ip: Option<IP>): (h: string)
    requires ip.Some? ==> |ip.value| == 16
  {
    if ip.Some? then Ip2Hex(ip.value) else ""
  }

  /** The addresses of a connection are taken apart, put into the kernel's form and looked up. `parseIP` stands for
      net.ParseIP, which answers with nothing for text that is no address. */
  function GetInodeByAddrs(local: string, remote: string, six: bool, parseIP: string -> Option<IP>,
                           rows: seq<Row>): (r: Lookup)
    requires forall s :: parseIP(s).Some? ==> |parseIP(s).value| == 16
  {
    var l, m := SplitAddr(local, six), SplitAddr(remote, six);
    if l.OutOfRange? then Panicked
    else if l.BadFormat? then Failed
    else if m.OutOfRange? then Panicked
    else if m.BadFormat? then Failed
    else
      var localHex, remoteHex := HexIPAddr(parseIP(l.ip)), HexIPAddr(parseIP(m.ip));
      match (HexPort(l.port), HexPort(m.port))
      case (Some(lp), Some(mp)) =>
        Inode(if rows == [] then "" else FirstMatch(rows[1..], localHex + ":" + lp, remoteHex + ":" + mp))
      case _ => Failed
  }

  /** What net.ParseIP makes of the text of an address of 4 or of 16 bytes: always 16 bytes, with a prefix before the
      four. */
  ghost predicate ParsedAs(ip: Option<IP>, v: IP) {
    ip.Some? && |ip.value| == 16
    && if |v| == 4 then ip.value == [0, 0, 0, 0, 0, 0, 0, 0, 0, 0, 255, 255] + v
       else ip.value == v && v[..12] != [0, 0, 0, 0, 0, 0, 0, 0, 0, 0, 255, 255]
  }

  lemma {:induction false} HexOfParsed(ip: Option<IP>, v: IP)
    requires ParsedAs(ip, v)
    ensures |v| % 4 == 0 && HexIPAddr(ip) == KernelHex(v)
  {
    Ip2HexIsKernelHex(ip.value);
    if |v| == 4 {
      assert ip.value[..12] == [0, 0, 0, 0, 0, 0, 0, 0, 0, 0, 255, 255] && ip.value[12..] == v;
    }
    hide Ip2Hex, KernelHex;
  }

  /** The inode of a connection between two addresses of one family is that of the first entry with exactly these ends:
      of a connection between two IPv4 addresses too, which net.ParseIP gives as 16 bytes. */
  lemma {:induction false} InodeOfConnection(localText: string, local: IP, localPort: nat,
                                             remoteText: string, remote: IP, remotePort: nat, six: bool,
                                             parseIP: string -> Option<IP>, rows: seq<Row>, es: seq<RowEntry>)
    returns (k: nat)
    requires forall s :: parseIP(s).Some? ==> |parseIP(s).value| == 16
    requires localText != "" && remoteText != "" && localPort < 65536 && remotePort < 65536
    requires six == (':' in localText) == (':' in remoteText)
    requires ParsedAs(parseIP(localText), local) && ParsedAs(parseIP(remoteText), remote) && |local| == |remote|
    requires |local| % 4 == 0 && |rows| == |es| + 1 && forall i :: 0 <= i < |es| ==> RowOf(rows[1..][i], es[i], |local|)
    ensures GetInodeByAddrs(HostPort(localText, Dec(localPort)), HostPort(remoteText, Dec(remotePort)), six, parseIP, rows)
         == Inode(if k < |es| then es[k].inode else "")
    ensures k <= |es|
    ensures forall j :: 0 <= j < k ==> es[j].(inode := "") != RowEntry(local, localPort, remote, remotePort, "")
    ensures k < |es| ==> es[k].(inode := "") == RowEntry(local, localPort, remote, remotePort, "")
  {
    hide SplitAddrIPv4, SplitAddrIPv6, HostPort, Ip2Hex, KernelHex, HexPort, Dec, FirstMatch, FirstInode, RowOf,
         ParsedAs, HexIPAddr;
    DecSafe(localPort);
    DecSafe(remotePort);
    SplitJoined(localText, Dec(localPort));
    SplitJoined(remoteText, Dec(remotePort));
    HexPortOfDec(localPort);
    HexPortOfDec(remotePort);
    HexOfParsed(parseIP(localText), local);
    HexOfParsed(parseIP(remoteText), remote);
    FirstMatchIsFirstInode(rows[1..], es, |local|, local, localPort, remote, remotePort);
    k := FirstInodeAt(es, local, localPort, remote, remotePort);
  }

  /** The search panics where the first address that can not be taken apart is sliced out of range, fails where one has
      a bad format or a port that is no number, and answers otherwise. */
  lemma {:induction false} InodeOrError(local: string, remote: string, six: bool, parseIP: string -> Option<IP>, rows: seq<Row>)
    requires forall s :: parseIP(s).Some? ==> |parseIP(s).value| == 16
    ensures var r, l, m := GetInodeByAddrs(local, remote, six, parseIP, rows),
                           if six then SplitAddrIPv6(local) else SplitAddrIPv4(local),
                           if six then SplitAddrIPv6(remote) else SplitAddrIPv4(remote);
            && (r.Panicked? <==> l.OutOfRange? || (l.Endpoint? && m.OutOfRange?))
            && (r.Failed? <==> l.BadFormat? || (l.Endpoint? && m.BadFormat?)
                               || (l.Endpoint? && m.Endpoint? && (Atoi(l.port).None? || Atoi(m.port).None?)))
  {
    hide SplitAddrIPv6, SplitAddrIPv4, Atoi, FirstMatch, HexIPAddr, FmtX;
  }

  /** Text that is no address leaves only the port to tell rows apart. */
  lemma {:induction false} UnparsedMatchesPort(a: IP, p: nat, q: nat)
    requires |a| % 4 == 0 && p < 65536 && q < 65536
    ensures Contains(EndHex(a, p), HexIPAddr(None) + ":" + Fixed(q, 4)) <==> p == q
  {
    var s, t := EndHex(a, p), HexIPAddr(None) + ":" + Fixed(q, 4);
    var n := 2 * |a|;
    KernelHexLength(a);
    ContainsIsOccurs(s, t);
    assert s[n..n + 5] == ":" + Fixed(p, 4);
    assert |t| == 5 && t[1..] == Fixed(q, 4);
    if Occurs(s, t) {
      var i :| OccursAt(s, t, i);
      assert s[i] == s[i..i + 5][0] == t[0] == ':';
      ColonAt(a, p, i);
      assert s[n..n + 5][1..] == Fixed(p, 4);
      assert Pow16(4) == 65536 by { assert Pow16(2) == 256; }
      FixedInjective(p, q, 4);
    }
    if p == q {
      assert OccursAt(s, t, n);
    }
  }
}
