/** The two keys of a socket: the 64-bit one that the design asks for, and the one that the code computes. */
module Keys {
  import opened Tracer
  import opened Kernel
  import opened Tracking

  /** `fd << 31` in 64 bits, plus the pid. */
  function IntendedKey(fd: Fd, pid: Pid): (key: int)
    ensures 0 <= key < 0x1_0000_0000_0000_0000 && (key - pid - 0x8000_0000 * fd) % 0x1_0000_0000_0000_0000 == 0
  {
    (fd * 0x8000_0000 + pid) % 0x1_0000_0000_0000_0000
  }

  /** `fd << 31` and the sum in a C `int` that wraps around, widened to 64 bits, of which the table hashes and compares
      the low four bytes. */
  function WrittenKey(fd: Fd, pid: Pid): (key: int) {
    ToInt(ToInt(fd * 0x8000_0000) + pid) % 0x1_0000_0000_0000_0000 % 0x1_0000_0000
  }

  /** The provisional key, shifted in 64 bits, as the table compares it. */
  function WrittenMagic(pid: Pid): (key: int) {
    (MAGIC_FD * 0x8000_0000 + pid) % 0x1_0000_0000_0000_0000 % 0x1_0000_0000
  }

  lemma {:induction false} LowPart(n: int, q: int, r: int)
    requires n == q * 0x1_0000_0000 + r && 0 <= r < 0x1_0000_0000
    ensures n % 0x1_0000_0000 == r
  {
    assert n / 0x1_0000_0000 == q;
  }

  lemma {:induction false} LowWord(n: int, q: int, r: int)
    requires n == q * 0x1_0000_0000 + r && 0 <= r < 0x1_0000_0000
    ensures n % 0x1_0000_0000_0000_0000 % 0x1_0000_0000 == r
  {
    var h, m := n / 0x1_0000_0000_0000_0000, n % 0x1_0000_0000_0000_0000;
    assert n == h * 0x1_0000_0000_0000_0000 + m;
    LowPart(m, q - h * 0x1_0000_0000, r);
  }

  lemma {:induction false} ToIntSplits(n: int) returns (q: int)
    ensures n == q * 0x1_0000_0000 + ToInt(n)
  {
    q := (n + 0x8000_0000) / 0x1_0000_0000;
  }

  /** All that is left of the number is its parity. */
  lemma {:induction false} WrittenKeyIsParity(fd: Fd, pid: Pid)
    ensures WrittenKey(fd, pid) == pid + fd % 2 * 0x8000_0000
    ensures WrittenMagic(pid) == WrittenKey(MAGIC_FD, pid)
  {
    hide ToInt;
    WrittenKeyAt(fd, pid, fd / 2, fd % 2);
    WrittenKeyAt(MAGIC_FD, pid, 3888888, 1);
    LowWord(MAGIC_FD * 0x8000_0000 + pid, 3888888, pid + 0x8000_0000);
  }

  lemma {:induction false} WrittenKeyAt(fd: Fd, pid: Pid, a: int, b: int)
    requires fd == 2 * a + b && 0 <= b < 2
    ensures WrittenKey(fd, pid) == pid + b * 0x8000_0000
  {
    var n := fd * 0x8000_0000;
    var q := ToIntSplits(n);
    var r := ToIntSplits(ToInt(n) + pid);
    hide ToInt;
    LowWord(ToInt(ToInt(n) + pid), a - q - r, pid + b * 0x8000_0000);
  }

  lemma {:induction false} IntendedKeyInjective(fd: Fd, pid: Pid, gd: Fd, qid: Pid)
    requires IntendedKey(fd, pid) == IntendedKey(gd, qid)
    ensures fd == gd && pid == qid
  {
    var m, n := fd * 0x8000_0000 + pid, gd * 0x8000_0000 + qid;
    var d := m / 0x1_0000_0000_0000_0000 - n / 0x1_0000_0000_0000_0000;
    assert m - n == d * 0x1_0000_0000_0000_0000;
    assert d == 0;
  }

  /** The key as written tells processes apart, but not the sockets of one process. */
  lemma {:induction false} WrittenKeyDetermines(fd: Fd, pid: Pid, gd: Fd, qid: Pid)
    ensures WrittenKey(fd, pid) == WrittenKey(gd, qid) <==> pid == qid && fd % 2 == gd % 2
  {
    hide WrittenKey, WrittenMagic;
    WrittenKeyIsParity(fd, pid);
    WrittenKeyIsParity(gd, qid);
  }

  ghost predicate AsIntended(cfg: Config) {
    forall f: Fd, p: Pid {:trigger cfg.key(f, p)} :: cfg.key(f, p) == IntendedKey(f, p)
  }

  ghost predicate AsWritten(cfg: Config) {
    forall f: Fd, p: Pid {:trigger cfg.key(f, p)} :: cfg.key(f, p) == WrittenKey(f, p)
  }

  /** With the key that the design asks for the table is exact after every stop, in every run in which the tracer takes
      only TCP sockets for TCP sockets. */
  lemma {:induction false} IntendedKeyTracks(cfg: Config, child: Pid, es: seq<Stop>)
    requires cfg.Valid() && AsIntended(cfg) && Legal(child, es)
    ensures ExactThroughout(cfg, child, es) <==> OnlyTcp(child, es)
  {
    hide IntendedKey;
    forall f: Fd, p: Pid, g: Fd, q: Pid {:trigger cfg.key(f, p), cfg.key(g, q)} | cfg.key(f, p) == cfg.key(g, q)
      ensures f == g && p == q
    {
      IntendedKeyInjective(f, p, g, q);
    }
    ExactTracking(cfg, child, es);
  }

  /** With the key as written it is exact after every stop of a run if and only if every lookup of that run finds an
      entry that is meant. */
  lemma {:induction false} WrittenKeyTracksIff(cfg: Config, child: Pid, es: seq<Stop>)
    requires cfg.Valid() && AsWritten(cfg) && Legal(child, es)
    ensures Determines(cfg) && (ExactThroughout(cfg, child, es) <==> FindsThroughout(cfg, child, es))
  {
    hide WrittenKey;
    forall f: Fd, p: Pid, g: Fd, q: Pid {:trigger cfg.key(f, p), cfg.key(g, q)} | cfg.key(f, p) == cfg.key(g, q)
      ensures p == q
    {
      WrittenKeyDetermines(f, p, g, q);
    }
    ExactIffFinds(cfg, child, es);
  }

  function CallStop(nr: int, ret: Fd, arg0: int, arg1: int): (e: Stop) {
    Stop(1, Stopped(SIGTRAP, 0), true, Regs(nr, ret, arg0, arg1), map[], 0, 0, 0, true, 0)
  }

  /** A TCP socket, number 3. */
  function OneSocket(): (es: seq<Stop>) {
    [CallStop(SYS_SOCKET, 0, AF_INET, 1)] + [CallStop(SYS_SOCKET, 3, AF_INET, 1)]
  }

  /** And then a datagram socket, number 4. */
  function TwoSockets(): (es: seq<Stop>) {
    OneSocket() + [CallStop(SYS_SOCKET, 0, AF_INET, 2)] + [CallStop(SYS_SOCKET, 4, AF_INET, 2)]
  }

  lemma {:induction false} Snoc(cfg: Config, child: Pid, es: seq<Stop>, e: Stop)
    requires cfg.Valid() && Legal(child, es) && Allowed(After(child, es), e)
    ensures Legal(child, es + [e]) && After(child, es + [e]) == Happens(After(child, es), e)
    ensures Run(cfg, child, es + [e]).socks == TableAfter(cfg, Run(cfg, child, es), After(child, es), e)
  {
    assert (es + [e])[..|es|] == es;
    TableFollowsKernel(cfg, child, es);
    TableStep(cfg, Run(cfg, child, es), After(child, es), e);
  }

  lemma {:induction false} FirstIsFound(socks: seq<Sock>, key: int, pick: nat)
    requires |socks| == 1 && socks[0].key == key
    ensures FindSock(socks, key, pick) == 0 && Removed(socks, 0) == []
  {
    assert FirstSock(socks, key) == 0;
  }

  lemma {:induction false} EndOfSocket(cfg: Config, s: State, k: World, e: Stop)
    requires SyscallStop(e) && SocketCall(CallOf(k, e.child))
    ensures TableAfter(cfg, s, k, e) == SocketExiting(cfg, s, e).socks
  {
    hide SocketExiting, SocketPre, ClosePre;
  }

  lemma {:induction false} OnlyTaken(cfg: Config, s: State, e: Stop, x: Sock)
    requires s.socks == [x] && FindSock(s.socks, cfg.key(MAGIC_FD, e.child), e.pick) == 0
    ensures SocketExiting(cfg, s, e).socks == [x.(fd := e.regs.ret, key := cfg.key(e.regs.ret, e.child))]
  {
    hide FindSock;
    assert Removed([x], 0) == [];
  }

  lemma {:induction false} AfterAsking(cfg: Config)
    requires cfg.Valid() && AsWritten(cfg)
    ensures var es := [CallStop(SYS_SOCKET, 0, AF_INET, 1)];
            && Legal(1, es) && After(1, es) == World(map[1 := In(SYS_SOCKET, AF_INET, 1)], {}, {})
            && Run(cfg, 1, es).socks == [Sock(-1, 0x8000_0001, AF_INET, 1)]
  {
    hide WrittenKey, WrittenMagic;
    WrittenKeyIsParity(MAGIC_FD, 1);
    assert ToInt(1) == 1 && ToInt(2) == 2;
    assert cfg.key(MAGIC_FD, 1) == 0x8000_0001;
    hide WrittenKey, ToInt, AsWritten;
    Snoc(cfg, 1, [], CallStop(SYS_SOCKET, 0, AF_INET, 1));
    assert [] + [CallStop(SYS_SOCKET, 0, AF_INET, 1)] == [CallStop(SYS_SOCKET, 0, AF_INET, 1)];
  }

  lemma {:induction false} AfterOneSocket(cfg: Config)
    requires cfg.Valid() && AsWritten(cfg)
    ensures Legal(1, OneSocket()) && After(1, OneSocket()) == World(map[1 := User], {}, {(1, 3)})
    ensures Run(cfg, 1, OneSocket()).socks == [Sock(3, 0x8000_0001, AF_INET, 1)]
  {
    hide WrittenKey, WrittenMagic;
    AfterAsking(cfg);
    WrittenKeyIsParity(3, 1);
    WrittenKeyIsParity(MAGIC_FD, 1);
    assert OddInet(AF_INET, 1) && IsTcp(AF_INET, 1);
    assert cfg.key(MAGIC_FD, 1) == 0x8000_0001 && cfg.key(3, 1) == 0x8000_0001;
    hide ToInt, Run, Legal, After, AsWritten, OddInet, IsTcp, TableAfter, SocketExiting, FindSock;
    var front, e := [CallStop(SYS_SOCKET, 0, AF_INET, 1)], CallStop(SYS_SOCKET, 3, AF_INET, 1);
    Snoc(cfg, 1, front, e);
    FirstIsFound(Run(cfg, 1, front).socks, 0x8000_0001, 0);
    EndOfSocket(cfg, Run(cfg, 1, front), After(1, front), e);
    OnlyTaken(cfg, Run(cfg, 1, front), e, Sock(-1, 0x8000_0001, AF_INET, 1));
  }

  lemma {:induction false} AfterDatagram(cfg: Config)
    requires cfg.Valid() && AsWritten(cfg)
    ensures var es := OneSocket() + [CallStop(SYS_SOCKET, 0, AF_INET, 2)];
            && Legal(1, es) && After(1, es) == World(map[1 := In(SYS_SOCKET, AF_INET, 2)], {}, {(1, 3)})
            && Run(cfg, 1, es).socks == [Sock(3, 0x8000_0001, AF_INET, 1)]
  {
    AfterOneSocket(cfg);
    assert ToInt(2) == 2;
    hide WrittenKey, ToInt, Run, Legal, After, OneSocket, AsWritten;
    Snoc(cfg, 1, OneSocket(), CallStop(SYS_SOCKET, 0, AF_INET, 2));
  }

  lemma {:induction false} DatagramMade(k: World)
    requires k == World(map[1 := In(SYS_SOCKET, AF_INET, 2)], {}, {(1, 3)})
    ensures Allowed(k, CallStop(SYS_SOCKET, 4, AF_INET, 2))
    ensures Happens(k, CallStop(SYS_SOCKET, 4, AF_INET, 2)) == World(map[1 := User], {}, {(1, 3)})
  {
    assert !IsTcp(AF_INET, 2);
    hide ToInt, IsTcp;
  }

  /** The end of the second call takes the entry of the first socket, whose number is odd as the provisional one is. */
  lemma {:induction false} EntryTaken(cfg: Config, s: State, k: World)
    requires AsWritten(cfg) && s.socks == [Sock(3, 0x8000_0001, AF_INET, 1)] && CallOf(k, 1) == In(SYS_SOCKET, AF_INET, 2)
    ensures TableAfter(cfg, s, k, CallStop(SYS_SOCKET, 4, AF_INET, 2)) == [Sock(4, 1, AF_INET, 1)]
  {
    hide WrittenKey, WrittenMagic, ToInt;
    WrittenKeyIsParity(4, 1);
    WrittenKeyIsParity(MAGIC_FD, 1);
    assert cfg.key(MAGIC_FD, 1) == 0x8000_0001 && cfg.key(4, 1) == 1;
    var e := CallStop(SYS_SOCKET, 4, AF_INET, 2);
    assert e.child == 1 && e.pick == 0 && e.regs.ret == 4 && SyscallStop(e) && SocketCall(CallOf(k, e.child));
    hide *;
    FirstIsFound(s.socks, 0x8000_0001, 0);
    EndOfSocket(cfg, s, k, e);
    OnlyTaken(cfg, s, e, Sock(3, 0x8000_0001, AF_INET, 1));
  }

  lemma {:induction false} FourNotThree(cfg: Config, socks: seq<Sock>)
    requires AsWritten(cfg) && socks == [Sock(4, 1, AF_INET, 1)]
    ensures !Entered(cfg, socks, 1, 3) && Entered(cfg, socks, 1, 4)
  {
    hide WrittenKey, WrittenMagic;
    WrittenKeyIsParity(4, 1);
    assert socks[0].fd == 4 && socks[0].key == cfg.key(4, 1);
  }

  lemma {:induction false} AfterTwoSockets(cfg: Config)
    requires cfg.Valid() && AsWritten(cfg)
    ensures Legal(1, TwoSockets()) && After(1, TwoSockets()) == World(map[1 := User], {}, {(1, 3)})
    ensures Run(cfg, 1, TwoSockets()).socks == [Sock(4, 1, AF_INET, 1)]
  {
    var es := OneSocket() + [CallStop(SYS_SOCKET, 0, AF_INET, 2)];
    assert TwoSockets() == es + [CallStop(SYS_SOCKET, 4, AF_INET, 2)];
    AfterDatagram(cfg);
    hide Run, After, Legal, AsWritten, OneSocket, TwoSockets, Allowed, Happens, CallStop, TableAfter;
    assert CallOf(After(1, es), 1) == In(SYS_SOCKET, AF_INET, 2);
    hide *;
    DatagramMade(After(1, es));
    EntryTaken(cfg, Run(cfg, 1, es), After(1, es));
    Snoc(cfg, 1, es, CallStop(SYS_SOCKET, 4, AF_INET, 2));
  }

  /** The key as written does fail: the process has socket 3 open, but the table has an entry for 4 and none for 3. */
  lemma {:induction false} WrittenKeyLosesSocket(cfg: Config)
    requires cfg.Valid() && AsWritten(cfg)
    ensures var es := TwoSockets();
            && Legal(1, es) && After(1, es).open == {(1, 3)}
            && !Entered(cfg, Run(cfg, 1, es).socks, 1, 3) && Entered(cfg, Run(cfg, 1, es).socks, 1, 4)
  {
    hide *;
    AfterTwoSockets(cfg);
    FourNotThree(cfg, Run(cfg, 1, TwoSockets()).socks);
  }
}
