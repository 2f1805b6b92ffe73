/** Which `connect` calls are redirected, told by what the processes have open, for the key as it is meant and as it is
    written. */
module Redirects {
  import opened Memory
  import opened Lines
  import opened Options
  import opened Tracer
  import opened Kernel
  import opened Tracking
  import opened Keys
  import opened Lookups
  import opened Clashes
  import opened Announcing

  ghost predicate ConnectEntry(k: World, e: Stop) {
    SyscallStop(e) && CallOf(k, e.child).User? && e.regs.nr == SYS_CONNECT
  }

  /** The destination that a `connect` asks for, if the tracer would not leave it alone. */
  ghost function Wanted(cfg: Config, e: Stop): (d: Option<Announcement>) {
    var d := Destination(cfg, e.mem, e.regs.arg1, e.child);
    if d.None? || cfg.ignore(d.value.ip) then None else d
  }

  /** In every run, with any key and any choice of the bucket chains, a `connect` is redirected exactly when the calls
      so far leave the key of its number in the table. */
  lemma {:induction false} RedirectsIffKeyed(cfg: Config, child: Pid, es: seq<Stop>, e: Stop)
    requires cfg.Valid() && Legal(child, es) && ConnectEntry(After(child, es), e)
    ensures RedirectAt(cfg, Run(cfg, child, es), After(child, es), e) ==
              if cfg.key(ToInt(e.regs.arg0), e.child) in KeysAfter(cfg, child, es) then Wanted(cfg, e) else None
  {
    TableKeys(cfg, child, es);
    FoundIffKey(Run(cfg, child, es).socks, cfg.key(ToInt(e.regs.arg0), e.child), e.pick);
    hide Destination, ToInt, KeysOf, KeysAfter, Run, After, Legal, FindSock;
  }

  /** So a `connect` that the tracer would not leave alone is treated rightly, which is to be redirected exactly when its
      number is an open TCP socket, if and only if the calls so far leave its key exactly when it is one. */
  lemma {:induction false} RedirectsRightlyIff(cfg: Config, child: Pid, es: seq<Stop>, e: Stop)
    requires cfg.Valid() && Legal(child, es) && ConnectEntry(After(child, es), e) && Wanted(cfg, e).Some?
    ensures var k, p, f := After(child, es), e.child, ToInt(e.regs.arg0);
            (RedirectAt(cfg, Run(cfg, child, es), k, e).Some? <==> (p, f) in k.open) <==>
            ((p, f) in k.open <==> cfg.key(f, p) in KeysAfter(cfg, child, es))
  {
    hide Run, After, KeysAfter, Legal, ToInt, RedirectAt, Wanted;
    RedirectsIffKeyed(cfg, child, es, e);
  }

  /** For the key as it is written: exactly when the calls so far leave its parity. */
  lemma {:induction false} WrittenRedirectsRightlyIff(cfg: Config, child: Pid, es: seq<Stop>, e: Stop)
    requires cfg.Valid() && AsWritten(cfg) && Legal(child, es)
    requires ConnectEntry(After(child, es), e) && Wanted(cfg, e).Some?
    ensures var k, p, f := After(child, es), e.child, ToInt(e.regs.arg0);
            && (RedirectAt(cfg, Run(cfg, child, es), k, e).Some? <==> Mark(f, p) in MarksAfter(child, es))
            && ((RedirectAt(cfg, Run(cfg, child, es), k, e).Some? <==> (p, f) in k.open) <==>
                ((p, f) in k.open <==> Mark(f, p) in MarksAfter(child, es)))
  {
    WrittenKeysAfter(cfg, child, es);
    WrittenMark(cfg, ToInt(e.regs.arg0), e.child);
    hide Run, After, KeysAfter, MarksAfter, Mark, AsWritten, Legal, ToInt, RedirectAt, Wanted;
    RedirectsIffKeyed(cfg, child, es, e);
  }

  // ---- Runs whose calls are clear ----

  /** Some open TCP socket of `p`, or some call that left an entry without a number, has the key of number `f`. */
  ghost predicate Shown(cfg: Config, k: World, spare: multiset<int>, p: Pid, f: Fd) {
    (exists g: Fd {:trigger (p, g) in k.open} :: (p, g) in k.open && cfg.key(g, p) == cfg.key(f, p)) || cfg.key(f, p) in spare
  }

  lemma {:induction false} FoundIffShown(cfg: Config, s: State, k: World, spare: multiset<int>, p: Pid, f: Fd, pick: nat)
    requires Determines(cfg) && AllShaped(cfg, s.socks) && Exact(cfg, s, k) && Idle(s.socks) == spare
    requires CallOf(k, p).User?
    ensures FindSock(s.socks, cfg.key(f, p), pick) < |s.socks| <==> Shown(cfg, k, spare, p, f)
  {
    var i := FindSock(s.socks, cfg.key(f, p), pick);
    assert forall g: Fd {:trigger (p, g) in k.open} :: (p, g) in Held(k) <==> (p, g) in k.open;
    hide Determines, AllShaped, Exact, Held, Idle;
    if i < |s.socks| {
      if s.socks[i].fd >= 0 {
        NumberedIsHeld(cfg, s, k, i, p, f);
      } else {
        EntryIdle(s.socks, i);
      }
    }
    if Shown(cfg, k, spare, p, f) {
      if g: Fd :| (p, g) in k.open && cfg.key(g, p) == cfg.key(f, p) {
        HeldEntered(cfg, s, k, p, g);
      } else {
        var j := IdleEntry(s.socks, cfg.key(f, p));
      }
    }
  }

  /** With any key that tells processes apart, in a run whose calls are clear, a key is left exactly when an open TCP
      socket of the process, or a call that left an entry without a number, has it. */
  lemma {:induction false} KeyedIffShown(cfg: Config, child: Pid, es: seq<Stop>, p: Pid, f: Fd)
    requires cfg.Valid() && Determines(cfg) && Legal(child, es) && ClearThroughout(cfg, child, es)
    requires CallOf(After(child, es), p).User?
    ensures cfg.key(f, p) in KeysAfter(cfg, child, es) <==> Shown(cfg, After(child, es), Spare(cfg, child, es), p, f)
  {
    var s, k := Run(cfg, child, es), After(child, es);
    hide Run, After, KeysAfter, Spare, Legal, ClearThroughout, Shown, Determines, AllShaped, Exact, Idle, KeysOf;
    ClearTracks(cfg, child, es);
    TableKeys(cfg, child, es);
    FoundIffKey(s.socks, cfg.key(f, p), 0);
    FoundIffShown(cfg, s, k, Spare(cfg, child, es), p, f, 0);
  }

  lemma {:induction false} RedirectsIffShown(cfg: Config, child: Pid, es: seq<Stop>, e: Stop)
    requires cfg.Valid() && Determines(cfg) && Legal(child, es) && ClearThroughout(cfg, child, es)
    requires ConnectEntry(After(child, es), e)
    ensures RedirectAt(cfg, Run(cfg, child, es), After(child, es), e) ==
              if Shown(cfg, After(child, es), Spare(cfg, child, es), e.child, ToInt(e.regs.arg0)) then Wanted(cfg, e) else None
  {
    hide Run, After, KeysAfter, Spare, Legal, ClearThroughout, Shown, Determines, ToInt, RedirectAt, Wanted;
    RedirectsIffKeyed(cfg, child, es, e);
    KeyedIffShown(cfg, child, es, e.child, ToInt(e.regs.arg0));
  }

  /** In such a run a `connect` is treated rightly if and only if its number is an open TCP socket or nothing else of its
      process has the same key. */
  lemma {:induction false} ClearRedirectsRightlyIff(cfg: Config, child: Pid, es: seq<Stop>, e: Stop)
    requires cfg.Valid() && Determines(cfg) && Legal(child, es) && ClearThroughout(cfg, child, es)
    requires ConnectEntry(After(child, es), e) && Wanted(cfg, e).Some?
    ensures var k, p, f := After(child, es), e.child, ToInt(e.regs.arg0);
            (RedirectAt(cfg, Run(cfg, child, es), k, e).Some? <==> (p, f) in k.open) <==>
            || (p, f) in k.open
            || ((forall g: Fd {:trigger (p, g) in k.open} :: (p, g) in k.open ==> cfg.key(g, p) != cfg.key(f, p))
                && cfg.key(f, p) !in Spare(cfg, child, es))
  {
    hide Run, After, Spare, ClearThroughout, Legal, Determines, ToInt, RedirectAt, Wanted;
    RedirectsIffShown(cfg, child, es, e);
  }

  // ---- The key as it is meant ----

  lemma {:induction false} OnlyTcpRepicked(child: Pid, es: seq<Stop>, es': seq<Stop>)
    requires Repicked(es, es')
    ensures OnlyTcp(child, es') <==> OnlyTcp(child, es)
    ensures After(child, es') == After(child, es)
  {
    if es != [] {
      var n := |es| - 1;
      OnlyTcpRepicked(child, es[..n], es'[..n]);
      hide OddInet, IsTcp, ToInt, Repicked;
      assert es'[n] == es[n].(pick := es'[n].pick);
    }
  }

  /** With a key that tells sockets apart, calls are clear exactly when the tracer takes only TCP sockets for such. */
  lemma {:induction false} InjectiveClear(cfg: Config, child: Pid, es: seq<Stop>)
    requires cfg.Valid() && Injective(cfg) && Legal(child, es)
    ensures ClearThroughout(cfg, child, es) <==> OnlyTcp(child, es)
  {
    assert Determines(cfg) && Repicked(es, es);
    hide Injective, Determines;
    ExactForAllPicks(cfg, child, es);
    if OnlyTcp(child, es) {
      forall es' | Repicked(es, es')
        ensures ExactThroughout(cfg, child, es')
      {
        RepickedSame(cfg, child, es, es');
        OnlyTcpRepicked(child, es, es');
        ExactTracking(cfg, child, es');
      }
    } else {
      ExactTracking(cfg, child, es);
    }
  }

  lemma {:induction false} SpareIsNegative(cfg: Config, socks: seq<Sock>, w: set<Pid>, p: Pid, f: Fd)
    requires Injective(cfg) && AllShaped(cfg, socks) && OnePending(cfg, socks, w) && p !in w
    requires cfg.key(f, p) in Idle(socks)
    ensures f < 0
  {
    var i := IdleEntry(socks, cfg.key(f, p));
    hide OwnerOf, Idle;
    assert Shaped(cfg, socks[i]) && !Provisional(cfg, socks[i], p);
  }

  /** With a key that tells sockets apart, while the tracer takes only TCP sockets for such, a `connect` is redirected
      exactly when its socket is an open TCP socket of the process; or when its number is negative, which no socket has,
      and the result of a failed call that no `close` was made for. */
  lemma {:induction false} RedirectsExactly(cfg: Config, child: Pid, es: seq<Stop>, e: Stop)
    requires cfg.Valid() && Injective(cfg) && Legal(child, es) && OnlyTcp(child, es)
    requires ConnectEntry(After(child, es), e)
    ensures var p, f := e.child, ToInt(e.regs.arg0);
            RedirectAt(cfg, Run(cfg, child, es), After(child, es), e) ==
              if (p, f) in After(child, es).open || (f < 0 && cfg.key(f, p) in Spare(cfg, child, es)) then Wanted(cfg, e)
              else None
  {
    var s, k, p, f := Run(cfg, child, es), After(child, es), e.child, ToInt(e.regs.arg0);
    assert Determines(cfg);
    assert p !in Waiting(k);
    assert forall g: Fd :: cfg.key(g, p) == cfg.key(f, p) ==> g == f;
    InjectiveClear(cfg, child, es);
    ClearTracks(cfg, child, es);
    ExactTracking(cfg, child, es);
    hide Determines, Run, After, Spare, ClearThroughout, Legal, OnlyTcp, ToInt, RedirectAt, Wanted, OnePending, Waiting;
    RedirectsIffShown(cfg, child, es, e);
    if cfg.key(f, p) in Spare(cfg, child, es) {
      SpareIsNegative(cfg, s.socks, Waiting(k), p, f);
    }
    hide Injective;
  }

  // ---- The key as it is written ----

  /** Clear calls for the key as it is written: all that counts of a number is its parity, and the provisional key is
      the odd one. */
  ghost predicate ParityClear(k: World, spare: multiset<int>, e: Stop) {
    var c, p, f := CallOf(k, e.child), e.child, ToInt(e.regs.arg0);
    if SyscallStop(e) && c.User? && e.regs.nr == SYS_CLOSE then
      && (forall g: Fd {:trigger (p, g) in Held(k)} :: (p, g) in Held(k) && g % 2 == f % 2 ==> g == f)
      && ((p, f) in Held(k) ==> p + f % 2 * 0x8000_0000 !in spare)
    else if SyscallStop(e) && SocketCall(c) then
      && (forall g: Fd {:trigger (p, g) in Held(k)} :: (p, g) in Held(k) ==> g % 2 == 0)
      && (p + 0x8000_0000 in spare && e.regs.ret >= 0 ==> TcpCall(c))
    else true
  }

  lemma {:induction false} KeyParity(cfg: Config, f: Fd, g: Fd, p: Pid)
    requires AsWritten(cfg)
    ensures cfg.key(g, p) == cfg.key(f, p) <==> g % 2 == f % 2
    ensures cfg.key(g, p) == cfg.key(MAGIC_FD, p) <==> g % 2 != 0
    ensures cfg.key(f, p) == p + f % 2 * 0x8000_0000 && cfg.key(MAGIC_FD, p) == p + 0x8000_0000
  {
    hide WrittenKey, WrittenMagic;
    WrittenKeyIsParity(f, p);
    WrittenKeyIsParity(g, p);
    WrittenKeyIsParity(MAGIC_FD, p);
  }

  lemma {:induction false} WrittenClear(cfg: Config, k: World, spare: multiset<int>, e: Stop)
    requires AsWritten(cfg)
    ensures Clear(cfg, k, spare, e) <==> ParityClear(k, spare, e)
  {
    var p, f := e.child, ToInt(e.regs.arg0);
    KeyParity(cfg, f, f, p);
    forall g: Fd {:trigger (p, g) in Held(k)}
      ensures cfg.key(g, p) == cfg.key(f, p) <==> g % 2 == f % 2
      ensures cfg.key(g, p) == cfg.key(MAGIC_FD, p) <==> g % 2 != 0
    {
      KeyParity(cfg, f, g, p);
    }
    hide AsWritten, WrittenKey, Held, ToInt, TcpCall;
  }

  ghost predicate ParityClearThroughout(cfg: Config, child: Pid, es: seq<Stop>) {
    es == [] ||
    var front := es[..|es| - 1];
    ParityClearThroughout(cfg, child, front) && ParityClear(After(child, front), Spare(cfg, child, front), es[|es| - 1])
  }

  lemma {:induction false} WrittenClearThroughout(cfg: Config, child: Pid, es: seq<Stop>)
    requires AsWritten(cfg)
    ensures ClearThroughout(cfg, child, es) <==> ParityClearThroughout(cfg, child, es)
  {
    if es != [] {
      var front := es[..|es| - 1];
      WrittenClearThroughout(cfg, child, front);
      WrittenClear(cfg, After(child, front), Spare(cfg, child, front), es[|es| - 1]);
      hide Clear, ParityClear, After, Spare;
    }
  }

  /** The key as it is written tracks the TCP sockets exactly, whatever the bucket chains choose, if and only if all
      calls are clear in terms of parities. */
  lemma {:induction false} WrittenKeyTracksIffParity(cfg: Config, child: Pid, es: seq<Stop>)
    requires cfg.Valid() && AsWritten(cfg) && Legal(child, es)
    ensures ParityClearThroughout(cfg, child, es) <==>
            forall es' :: Repicked(es, es') ==> ExactThroughout(cfg, child, es')
  {
    WrittenKeyTracksIff(cfg, child, es);
    WrittenClearThroughout(cfg, child, es);
    hide AsWritten, Determines, ExactThroughout, ClearThroughout, ParityClearThroughout;
    ExactForAllPicks(cfg, child, es);
  }

  function ConnectStop(fd: Fd, addr: int, m: Mem, pick: nat): (e: Stop) {
    CallStop(SYS_CONNECT, 0, fd, addr).(mem := m, pick := pick)
  }

  lemma {:induction false} OneEntry(cfg: Config, s: State, k: World, fd: Fd, addr: int, m: Mem, pick: nat)
    requires |s.socks| == 1 && CallOf(k, 1).User?
    ensures RedirectAt(cfg, s, k, ConnectStop(fd, addr, m, pick)) ==
              if s.socks[0].key == cfg.key(fd, 1) then Wanted(cfg, ConnectStop(fd, addr, m, pick)) else None
  {
    IntIsItself(fd);
    hide Destination, ToInt;
    var i := FindSock(s.socks, cfg.key(fd, 1), pick);
  }

  /** The key as written fails for what is announced too: after a TCP socket 3 and a datagram socket 4, a `connect` on
      the datagram socket is redirected, and one on the TCP socket is not. */
  lemma {:induction false} WrittenKeyRedirectsWrong(cfg: Config, addr: int, m: Mem, pick: nat)
    requires cfg.Valid() && AsWritten(cfg)
    ensures var k, s := After(1, TwoSockets()), Run(cfg, 1, TwoSockets());
            && k.open == {(1, 3)}
            && RedirectAt(cfg, s, k, ConnectStop(4, addr, m, pick)) == Wanted(cfg, ConnectStop(4, addr, m, pick))
            && RedirectAt(cfg, s, k, ConnectStop(3, addr, m, pick)) == None
  {
    hide WrittenKey, WrittenMagic;
    WrittenKeyIsParity(3, 1);
    WrittenKeyIsParity(4, 1);
    assert cfg.key(3, 1) == 0x8000_0001 && cfg.key(4, 1) == 1;
    hide AsWritten, Run, After, TwoSockets, RedirectAt, Wanted, ConnectStop;
    AfterTwoSockets(cfg);
    OneEntry(cfg, Run(cfg, 1, TwoSockets()), After(1, TwoSockets()), 3, addr, m, pick);
    OneEntry(cfg, Run(cfg, 1, TwoSockets()), After(1, TwoSockets()), 4, addr, m, pick);
  }
}
