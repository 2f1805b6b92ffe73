/** When the socket table is exact for every choice that the bucket chains can make, told by the calls of the processes
    alone: which numbers they hold open, and how many calls of theirs left an entry without a number. */
module Clashes {
  import opened Tracer
  import opened Kernel
  import opened Tracking

  /** The keys of the calls that left an entry without a number, because they are under way or have failed, and that no
      later call has used up. Nothing here looks at the table. */
  ghost function SpareAfter(cfg: Config, k: World, spare: multiset<int>, e: Stop): (r: multiset<int>) {
    var c, p, f := CallOf(k, e.child), e.child, ToInt(e.regs.arg0);
    var m := cfg.key(MAGIC_FD, p);
    if !SyscallStop(e) then spare
    else if c.User? && e.regs.nr == SYS_SOCKET && OddInet(e.regs.arg0, e.regs.arg1) then spare + multiset{m}
    else if c.User? && e.regs.nr == SYS_CLOSE && (p, f) !in Held(k) then spare - multiset{cfg.key(f, p)}
    else if SocketCall(c) && m in spare then
      spare - multiset{m} + if e.regs.ret < 0 then multiset{cfg.key(e.regs.ret, p)} else multiset{}
    else spare
  }

  ghost function Spare(cfg: Config, child: Pid, es: seq<Stop>): (s: multiset<int>) {
    if es == [] then multiset{}
    else
      var front := es[..|es| - 1];
      SpareAfter(cfg, After(child, front), Spare(cfg, child, front), es[|es| - 1])
  }

  /** A `close` is clear when its process holds no other number with the same key and, if it holds the number it
      closes, no call left an entry without a number under that key. The end of a `socket` is clear when its process
      holds no number under the provisional key, and what the tracer took for a TCP socket is one. */
  ghost predicate Clear(cfg: Config, k: World, spare: multiset<int>, e: Stop) {
    var c, p, f := CallOf(k, e.child), e.child, ToInt(e.regs.arg0);
    var m := cfg.key(MAGIC_FD, p);
    if SyscallStop(e) && c.User? && e.regs.nr == SYS_CLOSE then
      && (forall g: Fd {:trigger (p, g) in Held(k)} :: (p, g) in Held(k) && cfg.key(g, p) == cfg.key(f, p) ==> g == f)
      && ((p, f) in Held(k) ==> cfg.key(f, p) !in spare)
    else if SyscallStop(e) && SocketCall(c) then
      && (forall g: Fd {:trigger (p, g) in Held(k)} :: (p, g) in Held(k) ==> cfg.key(g, p) != m)
      && (m in spare && e.regs.ret >= 0 ==> TcpCall(c))
    else true
  }

  ghost predicate ClearThroughout(cfg: Config, child: Pid, es: seq<Stop>) {
    es == [] ||
    var front := es[..|es| - 1];
    ClearThroughout(cfg, child, front) && Clear(cfg, After(child, front), Spare(cfg, child, front), es[|es| - 1])
  }

  // ---- The entries without a number ----

  ghost function IdleOf(x: Sock): (m: multiset<int>) {
    if x.fd < 0 then multiset{x.key} else multiset{}
  }

  ghost function Idle(socks: seq<Sock>): (m: multiset<int>) {
    if socks == [] then multiset{} else Idle(socks[..|socks| - 1]) + IdleOf(socks[|socks| - 1])
  }

  lemma {:induction false} IdleAppend(socks: seq<Sock>, x: Sock)
    ensures Idle(socks + [x]) == Idle(socks) + IdleOf(x)
  {
    assert (socks + [x])[..|socks|] == socks;
  }

  lemma {:induction false} IdleRemoved(socks: seq<Sock>, i: nat)
    requires i < |socks|
    ensures Idle(Removed(socks, i)) + IdleOf(socks[i]) == Idle(socks)
  {
    hide IdleOf;
    var n := |socks| - 1;
    if i == n {
      assert Removed(socks, i) == socks[..n];
    } else {
      assert socks[i + 1..] == socks[..n][i + 1..] + [socks[n]];
      assert Removed(socks, i) == Removed(socks[..n], i) + [socks[n]];
      IdleRemoved(socks[..n], i);
      IdleAppend(Removed(socks[..n], i), socks[n]);
    }
  }

  lemma {:induction false} IdleEntry(socks: seq<Sock>, key: int) returns (i: nat)
    requires key in Idle(socks)
    ensures i < |socks| && socks[i].key == key && socks[i].fd < 0
  {
    var n := |socks| - 1;
    if key in IdleOf(socks[n]) {
      i := n;
    } else {
      i := IdleEntry(socks[..n], key);
    }
  }

  lemma {:induction false} EntryIdle(socks: seq<Sock>, i: nat)
    requires i < |socks| && socks[i].fd < 0
    ensures socks[i].key in Idle(socks)
  {
    IdleRemoved(socks, i);
  }

  /** In an exact table an entry with a number is the one of a held socket. */
  lemma {:induction false} HeldEntered(cfg: Config, s: State, k: World, p: Pid, f: Fd)
    requires Determines(cfg) && AllShaped(cfg, s.socks) && Exact(cfg, s, k)
    ensures (p, f) in Held(k) <==> f >= 0 && Entered(cfg, s.socks, p, f)
  {
    assert (p, f) in multiset(Held(k)) <==> (p, f) in Held(k);
    if f >= 0 {
      ClaimsEntered(cfg, s.socks, p, f);
    } else if (p, f) in Held(k) {
      ClaimsPositive(cfg, s.socks, (p, f));
    }
  }

  lemma {:induction false} NumberedIsHeld(cfg: Config, s: State, k: World, i: nat, p: Pid, f: Fd)
    requires Determines(cfg) && AllShaped(cfg, s.socks) && Exact(cfg, s, k)
    requires i < |s.socks| && s.socks[i].fd >= 0 && s.socks[i].key == cfg.key(f, p)
    ensures (p, s.socks[i].fd) in Held(k) && cfg.key(s.socks[i].fd, p) == cfg.key(f, p)
  {
    KeyOwner(cfg, f, p);
    assert Shaped(cfg, s.socks[i]);
    HeldEntered(cfg, s, k, p, s.socks[i].fd);
  }

  /** What a `close` that is clear finds, and what it leaves. */
  lemma {:induction false} ClearCloseFinds(cfg: Config, s: State, k: World, spare: multiset<int>, e: Stop) returns (i: nat)
    requires Determines(cfg) && AllShaped(cfg, s.socks) && Exact(cfg, s, k) && Idle(s.socks) == spare
    requires SyscallStop(e) && CallOf(k, e.child).User? && e.regs.nr == SYS_CLOSE && Clear(cfg, k, spare, e)
    ensures var p, f := e.child, ToInt(e.regs.arg0);
            var key := cfg.key(f, p);
            && i == FindSock(s.socks, key, e.pick)
            && (if i == |s.socks| then (p, f) !in Held(k) && key !in spare
                else if s.socks[i].fd >= 0 then s.socks[i].fd == f && (p, f) in Held(k)
                else (p, f) !in Held(k) && s.socks[i].key == key)
            && ((p, f) in Held(k) <==> f >= 0 && Entered(cfg, s.socks, p, f))
  {
    var p, f := e.child, ToInt(e.regs.arg0);
    i := FindSock(s.socks, cfg.key(f, p), e.pick);
    HeldEntered(cfg, s, k, p, f);
    hide Determines, AllShaped, Exact, Held, ToInt, Idle, Removed;
    if i < |s.socks| {
      if s.socks[i].fd >= 0 {
        NumberedIsHeld(cfg, s, k, i, p, f);
      } else {
        EntryIdle(s.socks, i);
      }
    } else if cfg.key(f, p) in spare {
      var j := IdleEntry(s.socks, cfg.key(f, p));
    }
  }

  lemma {:induction false} OneLess(rest: multiset<int>, all: multiset<int>, key: int)
    requires rest + multiset{key} == all
    ensures rest == all - multiset{key}
  {
  }

  lemma {:induction false} NoneLess(all: multiset<int>, key: int)
    requires key !in all
    ensures all - multiset{key} == all
  {
  }

  lemma {:induction false} IdleAfterRemoval(socks: seq<Sock>, i: nat)
    requires i < |socks|
    ensures Idle(Removed(socks, i)) == if socks[i].fd < 0 then Idle(socks) - multiset{socks[i].key} else Idle(socks)
  {
    IdleRemoved(socks, i);
    hide Idle, Removed;
    if socks[i].fd < 0 {
      OneLess(Idle(Removed(socks, i)), Idle(socks), socks[i].key);
    }
  }

  lemma {:induction false} CloseIdle(cfg: Config, s: State, e: Stop, held: bool, spare: multiset<int>)
    requires Idle(s.socks) == spare
    requires var key := cfg.key(ToInt(e.regs.arg0), e.child);
             var i := FindSock(s.socks, key, e.pick);
             if i == |s.socks| then !held && key !in spare else held <==> s.socks[i].fd >= 0
    ensures Idle(ClosePre(cfg, s, e).socks) ==
              if held then spare else spare - multiset{cfg.key(ToInt(e.regs.arg0), e.child)}
  {
    var key := cfg.key(ToInt(e.regs.arg0), e.child);
    var i := FindSock(s.socks, key, e.pick);
    hide Idle, Removed, ToInt;
    if i < |s.socks| {
      IdleAfterRemoval(s.socks, i);
    } else {
      NoneLess(spare, key);
    }
  }

  /** A `close` by its handler and by the account of spare entries. */
  lemma {:induction false} CloseAccount(cfg: Config, s: State, k: World, spare: multiset<int>, e: Stop)
    requires SyscallStop(e) && CallOf(k, e.child).User? && e.regs.nr == SYS_CLOSE
    ensures TableAfter(cfg, s, k, e) == ClosePre(cfg, s, e).socks
    ensures var p, f := e.child, ToInt(e.regs.arg0);
            SpareAfter(cfg, k, spare, e) == if (p, f) in Held(k) then spare else spare - multiset{cfg.key(f, p)}
  {
    hide ClosePre, Held, ToInt, FindSock;
  }

  lemma {:induction false} CloseFinds(cfg: Config, s: State, k: World, e: Stop)
    requires SyscallStop(e) && CallOf(k, e.child).User? && e.regs.nr == SYS_CLOSE
    ensures var f := ToInt(e.regs.arg0);
            var i := FindSock(s.socks, cfg.key(f, e.child), e.pick);
            Finds(cfg, s, k, e) <==>
              i == |s.socks| || s.socks[i].fd == f || (s.socks[i].fd < 0 && (f < 0 || !Entered(cfg, s.socks, e.child, f)))
  {
    hide ToInt, FindSock, Entered;
  }

  lemma {:induction false} ClearClose(cfg: Config, s: State, k: World, spare: multiset<int>, e: Stop)
    requires Determines(cfg) && AllShaped(cfg, s.socks) && Exact(cfg, s, k) && Idle(s.socks) == spare
    requires SyscallStop(e) && CallOf(k, e.child).User? && e.regs.nr == SYS_CLOSE && Clear(cfg, k, spare, e)
    ensures Finds(cfg, s, k, e) && Idle(TableAfter(cfg, s, k, e)) == SpareAfter(cfg, k, spare, e)
  {
    var i := ClearCloseFinds(cfg, s, k, spare, e);
    CloseAccount(cfg, s, k, spare, e);
    CloseFinds(cfg, s, k, e);
    hide *;
    CloseIdle(cfg, s, e, (e.child, ToInt(e.regs.arg0)) in Held(k), spare);
  }

  /** What the end of a `socket` that is clear finds. */
  lemma {:induction false} ClearSocketFinds(cfg: Config, s: State, k: World, spare: multiset<int>, e: Stop)
    returns (i: nat)
    requires Determines(cfg) && AllShaped(cfg, s.socks) && Exact(cfg, s, k) && Idle(s.socks) == spare
    requires SyscallStop(e) && SocketCall(CallOf(k, e.child)) && Clear(cfg, k, spare, e)
    ensures var m := cfg.key(MAGIC_FD, e.child);
            && i == FindSock(s.socks, m, e.pick)
            && (if i == |s.socks| then m !in spare else s.socks[i].fd < 0 && s.socks[i].key == m && m in spare)
  {
    var p := e.child;
    var m := cfg.key(MAGIC_FD, p);
    i := FindSock(s.socks, m, e.pick);
    hide Determines, AllShaped, Exact, Held, ToInt, Idle, Removed, TcpCall;
    if i < |s.socks| {
      if s.socks[i].fd >= 0 {
        NumberedIsHeld(cfg, s, k, i, p, MAGIC_FD);
      } else {
        EntryIdle(s.socks, i);
      }
    } else if m in spare {
      var j := IdleEntry(s.socks, m);
    }
  }

  lemma {:induction false} ClearSocket(cfg: Config, s: State, k: World, spare: multiset<int>, e: Stop)
    requires Determines(cfg) && AllShaped(cfg, s.socks) && Exact(cfg, s, k) && Idle(s.socks) == spare
    requires SyscallStop(e) && SocketCall(CallOf(k, e.child)) && Clear(cfg, k, spare, e)
    requires NotedCall(CallOf(k, e.child)) ==> cfg.key(MAGIC_FD, e.child) in spare
    ensures Finds(cfg, s, k, e) && Idle(TableAfter(cfg, s, k, e)) == SpareAfter(cfg, k, spare, e)
  {
    var p, c := e.child, CallOf(k, e.child);
    NotedIffTcp(c.arg0, c.arg1);
    assert cfg.key(MAGIC_FD, p) in spare && e.regs.ret >= 0 ==> TcpCall(c);
    assert TcpCall(c) ==> NotedCall(c);
    var i := ClearSocketFinds(cfg, s, k, spare, e);
    hide Determines, AllShaped, Exact, Held, ToInt, Idle, Removed, TcpCall, NotedCall, Clear, FindSock, Entered;
    if i < |s.socks| {
      IdleAfterRemoval(s.socks, i);
      IdleAppend(Removed(s.socks, i), s.socks[i].(fd := e.regs.ret, key := cfg.key(e.regs.ret, p)));
    }
    assert Finds(cfg, s, k, e);
  }

  /** A process in a call that the tracer notes has left an entry under its provisional key. */
  ghost predicate SpareWaits(cfg: Config, k: World, spare: multiset<int>) {
    forall p: Pid {:trigger CallOf(k, p)} :: NotedCall(CallOf(k, p)) ==> cfg.key(MAGIC_FD, p) in spare
  }

  lemma {:induction false} StepWaits(cfg: Config, k: World, spare: multiset<int>, e: Stop)
    requires Determines(cfg) && SpareWaits(cfg, k, spare)
    ensures SpareWaits(cfg, Happens(k, e), SpareAfter(cfg, k, spare, e))
  {
    hide ToInt, OddInet, IsTcp, Held;
    var k' := Happens(k, e);
    forall q: Pid {:trigger CallOf(k', q)} | NotedCall(CallOf(k', q))
      ensures cfg.key(MAGIC_FD, q) in SpareAfter(cfg, k, spare, e)
    {
      if q != e.child {
        assert CallOf(k', q) == CallOf(k, q);
        assert cfg.key(MAGIC_FD, q) != cfg.key(MAGIC_FD, e.child);
        assert cfg.key(MAGIC_FD, q) != cfg.key(ToInt(e.regs.arg0), e.child);
      }
    }
  }

  lemma {:induction false} StepClear(cfg: Config, s: State, k: World, spare: multiset<int>, e: Stop)
    requires Determines(cfg) && AllShaped(cfg, s.socks) && Exact(cfg, s, k) && Idle(s.socks) == spare
    requires SpareWaits(cfg, k, spare) && Clear(cfg, k, spare, e)
    ensures Finds(cfg, s, k, e) && Idle(TableAfter(cfg, s, k, e)) == SpareAfter(cfg, k, spare, e)
  {
    var c := CallOf(k, e.child);
    if SyscallStop(e) && c.User? && e.regs.nr == SYS_CLOSE {
      ClearClose(cfg, s, k, spare, e);
    } else if SyscallStop(e) && SocketCall(c) {
      ClearSocket(cfg, s, k, spare, e);
    } else {
      hide Determines, AllShaped, Exact, Held, ToInt, OddInet, SpareWaits, Clear;
      IdleAppend(s.socks, Sock(-1, cfg.key(MAGIC_FD, e.child), ToInt(e.regs.arg0), ToInt(e.regs.arg1)));
      hide Idle;
    }
  }

  /** Where a stop is not clear, some bucket chain shows its lookup an entry that is not meant. */
  lemma {:induction false} ClashLoses(cfg: Config, s: State, k: World, spare: multiset<int>, e: Stop) returns (pick: nat)
    requires Determines(cfg) && AllShaped(cfg, s.socks) && Exact(cfg, s, k) && Idle(s.socks) == spare
    requires !Clear(cfg, k, spare, e)
    ensures !Finds(cfg, s, k, e.(pick := pick))
  {
    var c, p, f := CallOf(k, e.child), e.child, ToInt(e.regs.arg0);
    var m := cfg.key(MAGIC_FD, p);
    hide Determines, AllShaped, Exact, Held, ToInt, Idle, TcpCall;
    if SyscallStop(e) && c.User? {
      HeldEntered(cfg, s, k, p, f);
      if g: Fd :| (p, g) in Held(k) && cfg.key(g, p) == cfg.key(f, p) && g != f {
        HeldEntered(cfg, s, k, p, g);
        var i :| 0 <= i < |s.socks| && s.socks[i].fd == g && s.socks[i].key == cfg.key(g, p);
        pick := i;
      } else {
        pick := IdleEntry(s.socks, cfg.key(f, p));
      }
    } else if g: Fd :| (p, g) in Held(k) && cfg.key(g, p) == m {
      HeldEntered(cfg, s, k, p, g);
      var i :| 0 <= i < |s.socks| && s.socks[i].fd == g && s.socks[i].key == cfg.key(g, p);
      pick := i;
    } else {
      pick := IdleEntry(s.socks, m);
    }
  }

  // ---- Whole runs ----

  /** The same run with other choices of the bucket chains. */
  ghost predicate Repicked(es: seq<Stop>, es': seq<Stop>) {
    |es'| == |es| && forall n {:trigger es[n]} {:trigger es'[n]} :: 0 <= n < |es| ==> es'[n] == es[n].(pick := es'[n].pick)
  }

  lemma {:induction false} RepickedSame(cfg: Config, child: Pid, es: seq<Stop>, es': seq<Stop>)
    requires Repicked(es, es')
    ensures After(child, es') == After(child, es) && Spare(cfg, child, es') == Spare(cfg, child, es)
    ensures Legal(child, es') <==> Legal(child, es)
    ensures ClearThroughout(cfg, child, es') <==> ClearThroughout(cfg, child, es)
  {
    if es != [] {
      var n := |es| - 1;
      RepickedSame(cfg, child, es[..n], es'[..n]);
      hide Held, OddInet, IsTcp, ToInt, Repicked;
      assert es'[n] == es[n].(pick := es'[n].pick);
      SameButPick(cfg, After(child, es[..n]), Spare(cfg, child, es[..n]), es[n], es'[n].pick);
      hide Clear, SpareAfter, Happens, Allowed;
    }
  }

  lemma {:induction false} SameButPick(cfg: Config, k: World, spare: multiset<int>, e: Stop, pick: nat)
    ensures Happens(k, e.(pick := pick)) == Happens(k, e) && SpareAfter(cfg, k, spare, e.(pick := pick)) == SpareAfter(cfg, k, spare, e)
    ensures Allowed(k, e.(pick := pick)) <==> Allowed(k, e)
    ensures Clear(cfg, k, spare, e.(pick := pick)) <==> Clear(cfg, k, spare, e)
  {
    hide Held, OddInet, IsTcp, ToInt;
  }

  /** Clear calls keep the table exact, and its entries without a number those of the calls that left one. */
  lemma {:induction false} ClearTracks(cfg: Config, child: Pid, es: seq<Stop>)
    requires cfg.Valid() && Determines(cfg) && Legal(child, es) && ClearThroughout(cfg, child, es)
    ensures ExactThroughout(cfg, child, es) && Exact(cfg, Run(cfg, child, es), After(child, es))
    ensures AllShaped(cfg, Run(cfg, child, es).socks) && Idle(Run(cfg, child, es).socks) == Spare(cfg, child, es)
    ensures SpareWaits(cfg, After(child, es), Spare(cfg, child, es))
  {
    if es == [] {
      assert Held(Birth(child)) == {};
      assert es[..0] == [];
    } else {
      var front, e := es[..|es| - 1], es[|es| - 1];
      var s, k, spare := Run(cfg, child, front), After(child, front), Spare(cfg, child, front);
      ClearTracks(cfg, child, front);
      TableFollowsKernel(cfg, child, front);
      assert Allowed(k, e) && Clear(cfg, k, spare, e) && Run(cfg, child, es) == HandleStop(cfg, s, e).state;
      assert Spare(cfg, child, es) == SpareAfter(cfg, k, spare, e) && After(child, es) == Happens(k, e);
      hide *;
      TableStep(cfg, s, k, e);
      StepClear(cfg, s, k, spare, e);
      StepExact(cfg, s, k, e);
      StepWaits(cfg, k, spare, e);
      ExactRunPrefix(cfg, child, es);
    }
  }

  lemma {:induction false} RepickedMore(es: seq<Stop>, front': seq<Stop>, pick: nat)
    requires es != [] && Repicked(es[..|es| - 1], front')
    ensures Repicked(es, front' + [es[|es| - 1].(pick := pick)])
  {
    var front := es[..|es| - 1];
    assert forall n {:trigger front[n]} :: 0 <= n < |front| ==> front[n] == es[n];
  }

  lemma {:induction false} LastLoses(cfg: Config, child: Pid, front: seq<Stop>, e: Stop) returns (pick: nat)
    requires cfg.Valid() && Determines(cfg) && Legal(child, front) && ClearThroughout(cfg, child, front)
    requires Allowed(After(child, front), e) && !Clear(cfg, After(child, front), Spare(cfg, child, front), e)
    ensures !ExactThroughout(cfg, child, front + [e.(pick := pick)])
  {
    var s, k, spare := Run(cfg, child, front), After(child, front), Spare(cfg, child, front);
    ClearTracks(cfg, child, front);
    TableFollowsKernel(cfg, child, front);
    pick := ClashLoses(cfg, s, k, spare, e);
    var e' := e.(pick := pick);
    SameButPick(cfg, k, spare, e, pick);
    assert (front + [e'])[..|front|] == front;
    assert Run(cfg, child, front + [e']) == HandleStop(cfg, s, e').state && After(child, front + [e']) == Happens(k, e');
    hide *;
    StepExact(cfg, s, k, e');
    ExactRunPrefix(cfg, child, front + [e']);
  }

  /** A run with a call that is not clear loses exactness for some choice of the bucket chains. */
  lemma {:induction false} ClashShows(cfg: Config, child: Pid, es: seq<Stop>) returns (es': seq<Stop>)
    requires cfg.Valid() && Determines(cfg) && Legal(child, es) && !ClearThroughout(cfg, child, es)
    ensures Repicked(es, es') && !ExactThroughout(cfg, child, es')
  {
    var front, e := es[..|es| - 1], es[|es| - 1];
    if ClearThroughout(cfg, child, front) {
      assert Repicked(front, front);
      assert Allowed(After(child, front), e) && !Clear(cfg, After(child, front), Spare(cfg, child, front), e);
      hide *;
      var pick := LastLoses(cfg, child, front, e);
      es' := front + [e.(pick := pick)];
      RepickedMore(es, front, pick);
    } else {
      assert Legal(child, front);
      hide *;
      var front' := ClashShows(cfg, child, front);
      es' := front' + [e.(pick := e.pick)];
      assert es'[..|front'|] == front';
      RepickedMore(es, front', e.pick);
      ExactRunPrefix(cfg, child, es');
    }
  }

  /** With any key that tells processes apart, the table is exact after every stop of a run whatever the bucket chains
      choose, if and only if every call of the run is clear. */
  lemma {:induction false} ExactForAllPicks(cfg: Config, child: Pid, es: seq<Stop>)
    requires cfg.Valid() && Determines(cfg) && Legal(child, es)
    ensures ClearThroughout(cfg, child, es) <==> forall es' :: Repicked(es, es') ==> ExactThroughout(cfg, child, es')
  {
    if ClearThroughout(cfg, child, es) {
      forall es' | Repicked(es, es')
        ensures ExactThroughout(cfg, child, es')
      {
        RepickedSame(cfg, child, es, es');
        ClearTracks(cfg, child, es');
      }
    } else {
      var es' := ClashShows(cfg, child, es);
    }
  }
}
