/** Socket addresses in the form that programs hand to `connect`, and what the tracer reads of them. */
module Addresses {
  import opened Memory
  import opened Lines
  import opened Options
  import opened Tracer

  /** A `sockaddr_in`: the family as the machine stores it, the port with its high byte first, the address, and padding. */
  function Inet(ip: Bytes, hi: bv8, lo: bv8): (sa: Bytes)
    requires |ip| == 4
    ensures |sa| == 16
  {
    [2, 0] + [hi, lo] + ip + [0, 0, 0, 0, 0, 0, 0, 0]
  }

  /** A `sockaddr_in6`, with its flow information and its scope. */
  function Inet6(ip: Bytes, hi: bv8, lo: bv8, flow: Bytes, scope: Bytes): (sa: Bytes)
    requires |ip| == 16 && |flow| == |scope| == 4
    ensures |sa| == 28
  {
    [10, 0] + [hi, lo] + flow + ip + scope
  }

  /** All words of a transfer of `len` bytes from `addr` can be transferred. */
  ghost predicate AllMapped(m: Mem, addr: int, len: nat) {
    forall k {:trigger WordOf(addr, k)} :: 0 <= k < len ==> Mapped(m, WordOf(addr, k))
  }

  /** A shorter transfer reads a prefix. */
  lemma {:induction false} ReadPrefix(m: Mem, addr: int, n: nat, len: nat)
    requires n <= len
    ensures Read(m, addr, n) == Read(m, addr, len)[..n]
  {
  }

  /** An IPv4 address in memory is read as the destination it was built from. */
  lemma {:induction false} InetRead(cfg: Config, m: Mem, addr: int, pid: Pid, ip: Bytes, hi: bv8, lo: bv8)
    requires |ip| == 4 && Read(m, addr, 16) == Inet(ip, hi, lo)
    ensures Inet(ip, hi, lo)[..8] == [2, 0, hi, lo] + ip && Family(m, addr) == 2
    ensures Destination(cfg, m, addr, pid) == Some(Announcement(cfg.ntoa(ip), 256 * hi as nat + lo as nat, pid))
  {
    var sa := Inet(ip, hi, lo);
    assert sa[..8] == [2, 0, hi, lo] + ip;
    assert sa[..2] == [2, 0] && sa[2..4] == [hi, lo] && sa[4..8] == ip;
  }

  /** So is an IPv6 address. */
  lemma {:induction false} Inet6Read(cfg: Config, m: Mem, addr: int, pid: Pid, ip: Bytes, hi: bv8, lo: bv8,
                                     flow: Bytes, scope: Bytes)
    requires |ip| == 16 && |flow| == |scope| == 4 && Read(m, addr, 28) == Inet6(ip, hi, lo, flow, scope)
    ensures Inet6(ip, hi, lo, flow, scope)[..24] == [10, 0, hi, lo] + flow + ip && Family(m, addr) == 10
    ensures Destination(cfg, m, addr, pid) == Some(Announcement(cfg.ntop(ip), 256 * hi as nat + lo as nat, pid))
  {
    var sa := Inet6(ip, hi, lo, flow, scope);
    assert sa[..24] == [10, 0, hi, lo] + flow + ip;
    ReadPrefix(m, addr, 16, 28);
    assert sa[..16][..2] == [10, 0] && sa[2..4] == [hi, lo] && sa[8..24] == ip;
  }
}
