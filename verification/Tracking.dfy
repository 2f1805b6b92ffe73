/** How well the socket table follows the TCP sockets that the traced processes have open. */
module Tracking {
  import opened Tracer
  import opened Kernel

  /** Two keys of different processes differ. */
  ghost predicate Determines(cfg: Config) {
    forall f: Fd, p: Pid, g: Fd, q: Pid {:trigger cfg.key(f, p), cfg.key(g, q)} :: cfg.key(f, p) == cfg.key(g, q) ==> p == q
  }

  ghost predicate Injective(cfg: Config) {
    forall f: Fd, p: Pid, g: Fd, q: Pid {:trigger cfg.key(f, p), cfg.key(g, q)} ::
      cfg.key(f, p) == cfg.key(g, q) ==> f == g && p == q
  }

  /** The process that a key belongs to. */
  ghost function OwnerOf(cfg: Config, key: int): (pid: Pid) {
    if exists f: Fd, p: Pid {:trigger cfg.key(f, p)} :: cfg.key(f, p) == key then
      var f: Fd, p: Pid {:trigger cfg.key(f, p)} :| cfg.key(f, p) == key;
      p
    else 1
  }

  lemma {:induction false} KeyOwner(cfg: Config, f: Fd, p: Pid)
    requires Determines(cfg)
    ensures OwnerOf(cfg, cfg.key(f, p)) == p
  {
  }

  ghost predicate Closing(k: World, x: (Pid, Fd)) {
    CallOf(k, x.0).In? && CallOf(k, x.0).nr == SYS_CLOSE && ToInt(CallOf(k, x.0).arg0) == x.1
  }

  /** The open TCP sockets that are not in the middle of being closed. */
  ghost function Held(k: World): (h: set<(Pid, Fd)>) {
    set x | x in k.open && !Closing(k, x)
  }

  /** What an entry says: that a process has a socket open, once its number is known. */
  ghost function Claim(cfg: Config, x: Sock): (m: multiset<(Pid, Fd)>) {
    if x.fd >= 0 then multiset{(OwnerOf(cfg, x.key), x.fd)} else multiset{}
  }

  ghost function Claims(cfg: Config, socks: seq<Sock>): (m: multiset<(Pid, Fd)>) {
    if socks == [] then multiset{} else Claims(cfg, socks[..|socks| - 1]) + Claim(cfg, socks[|socks| - 1])
  }

  /** The entries with a number are exactly the sockets that are held, each once. */
  ghost predicate Exact(cfg: Config, s: State, k: World) {
    Claims(cfg, s.socks) == multiset(Held(k))
  }

  /** An entry's key is the one its number calls for, or the provisional one. */
  ghost predicate Shaped(cfg: Config, x: Sock) {
    var p := OwnerOf(cfg, x.key);
    x.key == cfg.key(x.fd, p) || (x.fd == -1 && x.key == cfg.key(MAGIC_FD, p))
  }

  ghost predicate AllShaped(cfg: Config, socks: seq<Sock>) {
    forall i {:trigger socks[i]} :: 0 <= i < |socks| ==> Shaped(cfg, socks[i])
  }

  lemma {:induction false} ClaimsAppend(cfg: Config, socks: seq<Sock>, x: Sock)
    ensures Claims(cfg, socks + [x]) == Claims(cfg, socks) + Claim(cfg, x)
  {
    assert (socks + [x])[..|socks|] == socks;
  }

  lemma {:induction false} ClaimsRemoved(cfg: Config, socks: seq<Sock>, i: nat)
    requires i < |socks|
    ensures Claims(cfg, Removed(socks, i)) + Claim(cfg, socks[i]) == Claims(cfg, socks)
  {
    hide Claim;
    var n := |socks| - 1;
    if i == n {
      assert Removed(socks, i) == socks[..n];
    } else {
      assert socks[i + 1..] == socks[..n][i + 1..] + [socks[n]];
      assert Removed(socks, i) == Removed(socks[..n], i) + [socks[n]];
      ClaimsRemoved(cfg, socks[..n], i);
      ClaimsAppend(cfg, Removed(socks[..n], i), socks[n]);
    }
  }

  /** A socket is claimed when an entry with its number and its key is there. */
  ghost predicate Entered(cfg: Config, socks: seq<Sock>, p: Pid, f: Fd) {
    exists i {:trigger socks[i]} :: 0 <= i < |socks| && socks[i].fd == f && socks[i].key == cfg.key(f, p)
  }

  lemma {:induction false} EnteredLast(cfg: Config, socks: seq<Sock>, p: Pid, f: Fd)
    requires socks != []
    ensures var n := |socks| - 1;
            Entered(cfg, socks, p, f) <==> Entered(cfg, socks[..n], p, f) || (socks[n].fd == f && socks[n].key == cfg.key(f, p))
  {
    var n := |socks| - 1;
    assert forall i :: 0 <= i < n ==> socks[..n][i] == socks[i];
    if Entered(cfg, socks, p, f) {
      var i :| 0 <= i < |socks| && socks[i].fd == f && socks[i].key == cfg.key(f, p);
      assert i < n ==> socks[..n][i].fd == f;
    }
  }

  lemma {:induction false} ClaimsEntered(cfg: Config, socks: seq<Sock>, p: Pid, f: Fd)
    requires Determines(cfg) && AllShaped(cfg, socks) && f >= 0
    ensures (p, f) in Claims(cfg, socks) <==> Entered(cfg, socks, p, f)
  {
    if socks != [] {
      var n := |socks| - 1;
      KeyOwner(cfg, f, p);
      EnteredLast(cfg, socks, p, f);
      assert Shaped(cfg, socks[n]);
      assert AllShaped(cfg, socks[..n]);
      ClaimsEntered(cfg, socks[..n], p, f);
      hide OwnerOf, Determines, Entered, AllShaped;
    }
  }

  /** The table after a stop, in terms of the call that the kernel knows the process to be in. */
  ghost function TableAfter(cfg: Config, s: State, k: World, e: Stop): (t: seq<Sock>) {
    var c := CallOf(k, e.child);
    if !SyscallStop(e) then s.socks
    else if c.User? && e.regs.nr == SYS_SOCKET then SocketPre(cfg, s, e).socks
    else if c.User? && e.regs.nr == SYS_CLOSE then ClosePre(cfg, s, e).socks
    else if c.In? && c.nr == SYS_SOCKET then SocketExiting(cfg, s, e).socks
    else s.socks
  }

  /** In a state that follows the kernel, a stop does to the sockets what the call asks for. */
  lemma {:induction false} TableStep(cfg: Config, s: State, k: World, e: Stop)
    requires cfg.Valid() && Follows(s.procs, k.calls) && Allowed(k, e)
    ensures HandleStop(cfg, s, e).state.socks == TableAfter(cfg, s, k, e)
  {
    StopEffect(cfg, s, k, e);
    hide HandleStop, Follows, Allowed, SocketPre, ClosePre, SocketExiting, Redirected;
  }

  /** Whether the entry that `close` takes out is one for the socket it closes, or the entry that the end of
      `socket` finds is one without a number that its result belongs in. */
  ghost predicate Finds(cfg: Config, s: State, k: World, e: Stop) {
    var c := CallOf(k, e.child);
    if SyscallStop(e) && c.User? && e.regs.nr == SYS_CLOSE then
      var f := ToInt(e.regs.arg0);
      var i := FindSock(s.socks, cfg.key(f, e.child), e.pick);
      i == |s.socks| || s.socks[i].fd == f || (s.socks[i].fd < 0 && (f < 0 || !Entered(cfg, s.socks, e.child, f)))
    else if SyscallStop(e) && c.In? && c.nr == SYS_SOCKET then
      var i := FindSock(s.socks, cfg.key(MAGIC_FD, e.child), e.pick);
      if i == |s.socks| then !(TcpCall(c) && e.regs.ret >= 0)
      else s.socks[i].fd < 0 && (e.regs.ret >= 0 ==> TcpCall(c))
    else true
  }

  lemma {:induction false} HeldAfter(k: World, e: Stop)
    requires Allowed(k, e)
    ensures var c, x := CallOf(k, e.child), (e.child, ToInt(e.regs.arg0));
            Held(Happens(k, e)) ==
              if SyscallStop(e) && c.User? && e.regs.nr == SYS_CLOSE then Held(k) - {x}
              else if SyscallStop(e) && TcpCall(c) && e.regs.ret >= 0 then Held(k) + {(e.child, e.regs.ret)}
              else Held(k)
  {
    hide OddInet, ToInt;
    var c, k' := CallOf(k, e.child), Happens(k, e);
    forall p: Pid | p != e.child
      ensures CallOf(k', p) == CallOf(k, p)
    {
    }
    assert CallOf(k', e.child) == if !SyscallStop(e) then c else if c.User? then In(e.regs.nr, e.regs.arg0, e.regs.arg1) else User;
  }

  lemma {:induction false} ShapedAppend(cfg: Config, socks: seq<Sock>, x: Sock)
    requires AllShaped(cfg, socks) && Shaped(cfg, x)
    ensures AllShaped(cfg, socks + [x])
  {
    hide Shaped;
  }

  lemma {:induction false} ShapedRemoved(cfg: Config, socks: seq<Sock>, i: nat)
    requires AllShaped(cfg, socks) && i < |socks|
    ensures AllShaped(cfg, Removed(socks, i))
  {
    hide Shaped;
  }

  lemma {:induction false} StepShaped(cfg: Config, s: State, k: World, e: Stop)
    requires Determines(cfg) && AllShaped(cfg, s.socks)
    ensures AllShaped(cfg, TableAfter(cfg, s, k, e))
  {
    hide AllShaped, Removed, OddInet, FindSock;
    var m := cfg.key(MAGIC_FD, e.child);
    KeyOwner(cfg, MAGIC_FD, e.child);
    KeyOwner(cfg, e.regs.ret, e.child);
    ShapedAppend(cfg, s.socks, Sock(-1, m, ToInt(e.regs.arg0), ToInt(e.regs.arg1)));
    var i := FindSock(s.socks, cfg.key(ToInt(e.regs.arg0), e.child), e.pick);
    if i < |s.socks| {
      ShapedRemoved(cfg, s.socks, i);
    }
    var j := FindSock(s.socks, m, e.pick);
    if j < |s.socks| {
      ShapedRemoved(cfg, s.socks, j);
      ShapedAppend(cfg, Removed(s.socks, j), s.socks[j].(fd := e.regs.ret, key := cfg.key(e.regs.ret, e.child)));
    }
  }

  lemma {:induction false} ClaimsPositive(cfg: Config, socks: seq<Sock>, x: (Pid, Fd))
    requires x in Claims(cfg, socks)
    ensures x.1 >= 0
  {
    if x !in Claims(cfg, socks[..|socks| - 1]) {
      assert x in Claim(cfg, socks[|socks| - 1]);
    } else {
      ClaimsPositive(cfg, socks[..|socks| - 1], x);
    }
  }

  /** Taking one claim, or none, out of a table that is exact for `h`, to be exact for `h` without `x`. */
  lemma {:induction false} ClaimTakenOut(h: set<(Pid, Fd)>, x: (Pid, Fd), rest: multiset<(Pid, Fd)>,
                                         m: multiset<(Pid, Fd)>)
    requires rest + m == multiset(h)
    ensures m == multiset{} ==> (rest == multiset(h - {x}) <==> x !in h)
    ensures m == multiset{x} ==> rest == multiset(h - {x})
    ensures forall y :: m == multiset{y} && y != x ==> rest != multiset(h - {x})
  {
    if m == multiset{x} {
      assert x in multiset(h);
      assert h == (h - {x}) + {x};
      assert multiset(h) == multiset(h - {x}) + multiset{x};
      assert rest == multiset(h) - m;
    }
    forall y | m == multiset{y} && y != x
      ensures rest != multiset(h - {x})
    {
      assert (rest + m)[y] == rest[y] + 1 && multiset(h)[y] <= 1;
      assert y in multiset(h);
      assert y in h - {x};
      assert multiset(h - {x})[y] == 1;
    }
    if m == multiset{} && x !in h {
      assert h - {x} == h;
      assert rest == multiset(h);
    }
    if m == multiset{} && x in h {
      assert rest == multiset(h);
      assert multiset(h)[x] == 1 && multiset(h - {x})[x] == 0;
    }
  }

  /** Taking out the entry that `close` finds leaves the table exact only if it was the right one. */
  lemma {:induction false} CloseExact(cfg: Config, s: State, k: World, e: Stop)
    requires Determines(cfg) && AllShaped(cfg, s.socks) && Exact(cfg, s, k)
    ensures var f := ToInt(e.regs.arg0);
            var i := FindSock(s.socks, cfg.key(f, e.child), e.pick);
            Claims(cfg, ClosePre(cfg, s, e).socks) == multiset(Held(k) - {(e.child, f)}) <==>
            i == |s.socks| || s.socks[i].fd == f || (s.socks[i].fd < 0 && (f < 0 || !Entered(cfg, s.socks, e.child, f)))
  {
    hide Held, Removed, OwnerOf, Determines, ToInt, Shaped, AllShaped;
    var p, f := e.child, ToInt(e.regs.arg0);
    var i, x := FindSock(s.socks, cfg.key(f, p), e.pick), (p, f);
    KeyOwner(cfg, f, p);
    assert x in multiset(Held(k)) <==> x in Held(k);
    if f >= 0 {
      ClaimsEntered(cfg, s.socks, p, f);
    } else if x in Held(k) {
      ClaimsPositive(cfg, s.socks, x);
    }
    if i < |s.socks| {
      ClaimsRemoved(cfg, s.socks, i);
      ClaimTakenOut(Held(k), x, Claims(cfg, Removed(s.socks, i)), Claim(cfg, s.socks[i]));
    } else {
      ClaimTakenOut(Held(k), x, Claims(cfg, s.socks), multiset{});
    }
  }

  /** Giving a number to the entry that the end of `socket` finds leaves the table exact only if it had none and the
      call made a TCP socket, or failed. */
  lemma {:induction false} SocketExact(cfg: Config, s: State, k: World, e: Stop, gain: set<(Pid, Fd)>)
    requires Determines(cfg) && Exact(cfg, s, k)
    requires (e.child, e.regs.ret) !in Held(k) && (gain == {} || (gain == {(e.child, e.regs.ret)} && e.regs.ret >= 0))
    ensures var i := FindSock(s.socks, cfg.key(MAGIC_FD, e.child), e.pick);
            Claims(cfg, SocketExiting(cfg, s, e).socks) == multiset(Held(k) + gain) <==>
            if i == |s.socks| then gain == {} else s.socks[i].fd < 0 && (e.regs.ret >= 0 ==> gain != {})
  {
    hide Held, Removed, OwnerOf, Determines;
    var p, r := e.child, e.regs.ret;
    var i, h := FindSock(s.socks, cfg.key(MAGIC_FD, p), e.pick), Held(k);
    KeyOwner(cfg, MAGIC_FD, p);
    KeyOwner(cfg, r, p);
    if i < |s.socks| {
      ClaimsRemoved(cfg, s.socks, i);
      var y := s.socks[i].(fd := r, key := cfg.key(r, p));
      ClaimsAppend(cfg, Removed(s.socks, i), y);
      ClaimMoved(h, gain, (p, r), Claims(cfg, Removed(s.socks, i)), Claim(cfg, s.socks[i]), Claim(cfg, y));
    } else {
      ClaimMoved(h, gain, (p, r), Claims(cfg, s.socks), multiset{}, multiset{});
    }
  }

  /** Replacing the claim `m`, or none, by the claim of `x`, or none. */
  lemma {:induction false} ClaimMoved(h: set<(Pid, Fd)>, gain: set<(Pid, Fd)>, x: (Pid, Fd),
                                      rest: multiset<(Pid, Fd)>, m: multiset<(Pid, Fd)>, m': multiset<(Pid, Fd)>)
    requires rest + m == multiset(h) && x !in h && (gain == {} || gain == {x}) && (m' == multiset{} || m' == multiset{x})
    requires m == multiset{} || exists y :: m == multiset{y}
    ensures rest + m' == multiset(h + gain) <==> m == multiset{} && (m' == multiset{} <==> gain == {})
  {
    assert multiset(h)[x] == 0 && x !in rest;
    if m == multiset{} {
      assert rest == multiset(h);
      if gain == {} {
        assert h + gain == h;
        assert m' != multiset{} ==> (rest + m')[x] == 1;
      } else {
        assert multiset(h + gain) == multiset(h) + multiset{x};
        assert m' == multiset{} ==> (rest + m')[x] == 0 && multiset(h + gain)[x] == 1;
      }
    } else {
      var y :| m == multiset{y};
      assert (rest + m)[y] == rest[y] + 1 && multiset(h)[y] <= 1;
      assert y in multiset(h) && y != x;
      assert (rest + m')[y] == 0 && multiset(h + gain)[y] == 1;
    }
  }

  lemma {:induction false} CloseStep(cfg: Config, s: State, k: World, e: Stop)
    requires Determines(cfg) && Allowed(k, e) && AllShaped(cfg, s.socks) && Exact(cfg, s, k)
    requires SyscallStop(e) && CallOf(k, e.child).User? && e.regs.nr == SYS_CLOSE
    ensures Claims(cfg, TableAfter(cfg, s, k, e)) == multiset(Held(Happens(k, e))) <==> Finds(cfg, s, k, e)
  {
    HeldAfter(k, e);
    CloseExact(cfg, s, k, e);
    hide AllShaped, Happens, Determines, Held, ClosePre, Claims, Entered, Allowed, ToInt;
  }

  lemma {:induction false} SocketStep(cfg: Config, s: State, k: World, e: Stop)
    requires Determines(cfg) && Allowed(k, e) && Exact(cfg, s, k)
    requires SyscallStop(e) && CallOf(k, e.child).In? && CallOf(k, e.child).nr == SYS_SOCKET
    ensures Claims(cfg, TableAfter(cfg, s, k, e)) == multiset(Held(Happens(k, e))) <==> Finds(cfg, s, k, e)
  {
    HeldAfter(k, e);
    var c := CallOf(k, e.child);
    var gain := if TcpCall(c) && e.regs.ret >= 0 then {(e.child, e.regs.ret)} else {};
    assert (e.child, e.regs.ret) !in Held(k);
    assert Held(k) + {} == Held(k);
    hide Happens, Determines, Held, SocketExiting, Claims, TcpCall;
    SocketExact(cfg, s, k, e, gain);
  }

  lemma {:induction false} OtherStep(cfg: Config, s: State, k: World, e: Stop)
    requires Determines(cfg) && Allowed(k, e) && Exact(cfg, s, k)
    requires SyscallStop(e) && CallOf(k, e.child).User? ==> e.regs.nr != SYS_CLOSE
    requires SyscallStop(e) && CallOf(k, e.child).In? ==> CallOf(k, e.child).nr != SYS_SOCKET
    ensures Claims(cfg, TableAfter(cfg, s, k, e)) == multiset(Held(Happens(k, e))) && Finds(cfg, s, k, e)
  {
    HeldAfter(k, e);
    hide Happens, Determines, Held, OwnerOf, Claims;
    ClaimsAppend(cfg, s.socks, Sock(-1, cfg.key(MAGIC_FD, e.child), ToInt(e.regs.arg0), ToInt(e.regs.arg1)));
  }

  /** From an exact table a stop leads to an exact table if and only if its lookup, if it makes one, finds an entry
      that is meant: with any key that tells processes apart. */
  lemma {:induction false} StepExact(cfg: Config, s: State, k: World, e: Stop)
    requires cfg.Valid() && Determines(cfg) && Follows(s.procs, k.calls) && Allowed(k, e)
    requires AllShaped(cfg, s.socks) && Exact(cfg, s, k)
    ensures Exact(cfg, HandleStop(cfg, s, e).state, Happens(k, e)) <==> Finds(cfg, s, k, e)
    ensures AllShaped(cfg, HandleStop(cfg, s, e).state.socks)
  {
    TableStep(cfg, s, k, e);
    hide HandleStop, Happens, Follows, Determines, Held, AllShaped, TableAfter, Finds, Claims;
    StepShaped(cfg, s, k, e);
    if SyscallStop(e) && CallOf(k, e.child).User? && e.regs.nr == SYS_CLOSE {
      CloseStep(cfg, s, k, e);
    } else if SyscallStop(e) && CallOf(k, e.child).In? && CallOf(k, e.child).nr == SYS_SOCKET {
      SocketStep(cfg, s, k, e);
    } else {
      OtherStep(cfg, s, k, e);
    }
  }

  ghost predicate ExactThroughout(cfg: Config, child: Pid, es: seq<Stop>)
    requires cfg.Valid()
  {
    forall n {:trigger es[..n]} :: 0 <= n <= |es| ==> Exact(cfg, Run(cfg, child, es[..n]), After(child, es[..n]))
  }

  ghost predicate FindsThroughout(cfg: Config, child: Pid, es: seq<Stop>)
    requires cfg.Valid()
  {
    forall n {:trigger es[n]} :: 0 <= n < |es| ==> Finds(cfg, Run(cfg, child, es[..n]), After(child, es[..n]), es[n])
  }

  lemma {:induction false} ExactRunPrefix(cfg: Config, child: Pid, es: seq<Stop>)
    requires cfg.Valid() && es != []
    ensures var front := es[..|es| - 1];
            && (ExactThroughout(cfg, child, es) <==> ExactThroughout(cfg, child, front) && Exact(cfg, Run(cfg, child, es), After(child, es)))
            && (FindsThroughout(cfg, child, es) <==>
                FindsThroughout(cfg, child, front) && Finds(cfg, Run(cfg, child, front), After(child, front), es[|es| - 1]))
  {
    hide Exact, Finds, Run, After;
    var n := |es| - 1;
    var front := es[..n];
    assert es[..|es|] == es;
    assert forall m :: 0 <= m <= n ==> front[..m] == es[..m];
    assert forall m :: 0 <= m < n ==> front[m] == es[m];
    if ExactThroughout(cfg, child, es) {
      forall m {:trigger front[..m]} | 0 <= m <= n
        ensures Exact(cfg, Run(cfg, child, front[..m]), After(child, front[..m]))
      {
        assert es[..m] == front[..m];
      }
    }
    if ExactThroughout(cfg, child, front) && Exact(cfg, Run(cfg, child, es), After(child, es)) {
      forall m {:trigger es[..m]} | 0 <= m <= |es|
        ensures Exact(cfg, Run(cfg, child, es[..m]), After(child, es[..m]))
      {
        assert m <= n ==> es[..m] == front[..m];
      }
    }
    if FindsThroughout(cfg, child, es) {
      forall m {:trigger front[m]} | 0 <= m < n
        ensures Finds(cfg, Run(cfg, child, front[..m]), After(child, front[..m]), front[m])
      {
        assert es[m] == front[m];
      }
    }
  }

  /** The table is exact after every stop of a run if and only if every lookup of the run finds an entry that is
      meant. */
  lemma {:induction false} ExactIffFinds(cfg: Config, child: Pid, es: seq<Stop>)
    requires cfg.Valid() && Determines(cfg) && Legal(child, es)
    ensures ExactThroughout(cfg, child, es) <==> FindsThroughout(cfg, child, es)
    ensures AllShaped(cfg, Run(cfg, child, es).socks)
  {
    if es == [] {
      assert Held(Birth(child)) == {};
      assert es[..0] == [];
    } else {
      var front := es[..|es| - 1];
      assert front[..|front|] == front;
      assert ExactThroughout(cfg, child, front) ==> Exact(cfg, Run(cfg, child, front), After(child, front));
      hide Exact, Finds, Determines, ExactThroughout, FindsThroughout;
      ExactIffFinds(cfg, child, front);
      ExactRunPrefix(cfg, child, es);
      TableFollowsKernel(cfg, child, front);
      TableStep(cfg, Run(cfg, child, front), After(child, front), es[|es| - 1]);
      StepShaped(cfg, Run(cfg, child, front), After(child, front), es[|es| - 1]);
      if ExactThroughout(cfg, child, front) {
        StepExact(cfg, Run(cfg, child, front), After(child, front), es[|es| - 1]);
      }
    }
  }

  ghost predicate Provisional(cfg: Config, x: Sock, p: Pid) {
    x.key == cfg.key(MAGIC_FD, p)
  }

  /** The processes that are in a call for a socket that the tracer notes. */
  ghost function Waiting(k: World): (w: set<Pid>) {
    set p | p in k.calls && NotedCall(k.calls[p])
  }

  /** The entries under a provisional key are those of the processes in `w`, one each. */
  ghost predicate OnePending(cfg: Config, socks: seq<Sock>, w: set<Pid>) {
    && (forall i, p: Pid {:trigger Provisional(cfg, socks[i], p)} ::
          0 <= i < |socks| && Provisional(cfg, socks[i], p) ==> socks[i].fd == -1 && p in w)
    && (forall i, j, p: Pid {:trigger Provisional(cfg, socks[i], p), Provisional(cfg, socks[j], p)} ::
          0 <= i < j < |socks| && Provisional(cfg, socks[i], p) ==> !Provisional(cfg, socks[j], p))
    && (forall p: Pid {:trigger p in w} :: p in w ==> exists i :: 0 <= i < |socks| && Provisional(cfg, socks[i], p))
  }

  lemma {:induction false} PendingFinds(cfg: Config, s: State, k: World, e: Stop)
    requires Injective(cfg) && Allowed(k, e) && AllShaped(cfg, s.socks) && OnePending(cfg, s.socks, Waiting(k))
    ensures Finds(cfg, s, k, e) <==> !Stray(k, e)
  {
    var c := CallOf(k, e.child);
    if c.In? {
      NotedIffTcp(c.arg0, c.arg1);
    }
    hide OddInet, IsTcp, ToInt, OwnerOf;
    var p, f := e.child, ToInt(e.regs.arg0);
    var i := FindSock(s.socks, cfg.key(f, p), e.pick);
    var j := FindSock(s.socks, cfg.key(MAGIC_FD, p), e.pick);
    if i < |s.socks| {
      assert Shaped(cfg, s.socks[i]);
      assert f == MAGIC_FD ==> Provisional(cfg, s.socks[i], p);
    }
    if j < |s.socks| {
      assert Provisional(cfg, s.socks[j], p);
    } else {
      assert p !in Waiting(k);
    }
  }

  lemma {:induction false} WaitingAfter(k: World, e: Stop)
    ensures var c := CallOf(k, e.child);
            Waiting(Happens(k, e)) ==
              if !SyscallStop(e) then Waiting(k)
              else if c.User? && e.regs.nr == SYS_SOCKET && OddInet(e.regs.arg0, e.regs.arg1) then Waiting(k) + {e.child}
              else Waiting(k) - {e.child}
  {
    hide OddInet;
  }

  lemma {:induction false} PendingAppend(cfg: Config, socks: seq<Sock>, w: set<Pid>, x: Sock, p: Pid)
    requires Injective(cfg) && OnePending(cfg, socks, w)
    requires p !in w && x.fd == -1 && x.key == cfg.key(MAGIC_FD, p)
    ensures OnePending(cfg, socks + [x], w + {p})
  {
    var t := socks + [x];
    assert t[|socks|] == x;
    assert forall i :: 0 <= i < |socks| ==> t[i] == socks[i];
    assert Provisional(cfg, t[|socks|], p);
    forall q: Pid {:trigger q in w} | q in w
      ensures exists i :: 0 <= i < |t| && Provisional(cfg, t[i], q)
    {
      var i :| 0 <= i < |socks| && Provisional(cfg, socks[i], q);
      assert Provisional(cfg, t[i], q);
    }
  }

  lemma {:induction false} SettledAppend(cfg: Config, socks: seq<Sock>, w: set<Pid>, x: Sock, p: Pid)
    requires Injective(cfg) && OnePending(cfg, socks, w)
    requires x.fd != MAGIC_FD && x.key == cfg.key(x.fd, p)
    ensures OnePending(cfg, socks + [x], w)
  {
    var t := socks + [x];
    assert t[|socks|] == x;
    assert forall i :: 0 <= i < |socks| ==> t[i] == socks[i];
    forall q: Pid {:trigger q in w} | q in w
      ensures exists i :: 0 <= i < |t| && Provisional(cfg, t[i], q)
    {
      var i :| 0 <= i < |socks| && Provisional(cfg, socks[i], q);
      assert Provisional(cfg, t[i], q);
    }
  }

  /** Without entry `i`, its process, if it is a provisional one, has no entry any more. */
  lemma {:induction false} PendingRemoved(cfg: Config, socks: seq<Sock>, w: set<Pid>, i: nat, p: Pid)
    requires OnePending(cfg, socks, w) && i < |socks|
    requires forall q: Pid :: Provisional(cfg, socks[i], q) ==> q == p
    requires p in w ==> Provisional(cfg, socks[i], p)
    ensures OnePending(cfg, Removed(socks, i), w - {p})
  {
    hide Provisional;
    var t := Removed(socks, i);
    assert forall j :: 0 <= j < |t| ==> t[j] == socks[if j < i then j else j + 1];
    forall q: Pid {:trigger q in w} | q in w - {p}
      ensures exists j :: 0 <= j < |t| && Provisional(cfg, t[j], q)
    {
      var j :| 0 <= j < |socks| && Provisional(cfg, socks[j], q);
      assert Provisional(cfg, t[if j < i then j else j - 1], q);
    }
  }

  lemma {:induction false} StepPending(cfg: Config, s: State, k: World, e: Stop)
    requires Injective(cfg) && Allowed(k, e) && OnePending(cfg, s.socks, Waiting(k)) && AllShaped(cfg, s.socks)
    ensures OnePending(cfg, TableAfter(cfg, s, k, e), Waiting(Happens(k, e)))
  {
    var c, p, w := CallOf(k, e.child), e.child, Waiting(k);
    var m := cfg.key(MAGIC_FD, p);
    assert p in w <==> NotedCall(c);
    assert p in w ==> FindSock(s.socks, m, e.pick) < |s.socks|;
    hide OnePending, OddInet, ToInt, Waiting, Happens, Removed;
    WaitingAfter(k, e);
    if SyscallStop(e) && c.User? && e.regs.nr == SYS_SOCKET && OddInet(e.regs.arg0, e.regs.arg1) {
      PendingAppend(cfg, s.socks, w, Sock(-1, m, ToInt(e.regs.arg0), ToInt(e.regs.arg1)), p);
    } else if SyscallStop(e) && c.User? {
      assert w - {p} == w;
      var i := FindSock(s.socks, cfg.key(ToInt(e.regs.arg0), p), e.pick);
      if e.regs.nr == SYS_CLOSE && i < |s.socks| {
        NotPending(cfg, s.socks, w, i, p);
        PendingRemoved(cfg, s.socks, w, i, p);
      }
    } else if SyscallStop(e) && c.nr == SYS_SOCKET {
      var j := FindSock(s.socks, m, e.pick);
      if j < |s.socks| {
        PendingRemoved(cfg, s.socks, w, j, p);
        SettledAppend(cfg, Removed(s.socks, j), w - {p}, s.socks[j].(fd := e.regs.ret, key := cfg.key(e.regs.ret, p)), p);
      } else {
        assert w - {p} == w;
      }
    } else if SyscallStop(e) {
      assert w - {p} == w;
    }
  }

  lemma {:induction false} NotPending(cfg: Config, socks: seq<Sock>, w: set<Pid>, i: nat, p: Pid)
    requires OnePending(cfg, socks, w) && i < |socks| && p !in w && Injective(cfg)
    requires exists f: Fd {:trigger cfg.key(f, p)} :: socks[i].key == cfg.key(f, p)
    ensures forall q: Pid :: Provisional(cfg, socks[i], q) ==> q == p
  {
  }

  /** With a key that tells sockets apart, the table is exact after every stop of a run if and only if no process makes
      a socket that is not a TCP socket though the tracer takes it for one; and the provisional entries are those of
      the processes in a call for a socket that the tracer notes, one each. */
  lemma {:induction false} ExactTracking(cfg: Config, child: Pid, es: seq<Stop>)
    requires cfg.Valid() && Injective(cfg) && Legal(child, es)
    ensures ExactThroughout(cfg, child, es) <==> OnlyTcp(child, es)
    ensures OnePending(cfg, Run(cfg, child, es).socks, Waiting(After(child, es)))
  {
    assert Determines(cfg);
    InjectiveFinds(cfg, child, es);
    ExactIffFinds(cfg, child, es);
  }

  lemma {:induction false} InjectiveFinds(cfg: Config, child: Pid, es: seq<Stop>)
    requires cfg.Valid() && Injective(cfg) && Legal(child, es)
    ensures FindsThroughout(cfg, child, es) <==> OnlyTcp(child, es)
    ensures OnePending(cfg, Run(cfg, child, es).socks, Waiting(After(child, es)))
  {
    if es == [] {
      assert Waiting(Birth(child)) == {};
    } else {
      hide OnePending, Finds, FindsThroughout, ExactThroughout, AllShaped, Follows, Waiting;
      var front, e := es[..|es| - 1], es[|es| - 1];
      var s, k := Run(cfg, child, front), After(child, front);
      InjectiveFinds(cfg, child, front);
      ExactIffFinds(cfg, child, front);
      TableFollowsKernel(cfg, child, front);
      TableStep(cfg, s, k, e);
      PendingFinds(cfg, s, k, e);
      StepPending(cfg, s, k, e);
      ExactRunPrefix(cfg, child, es);
    }
  }

  /** The sockets that are open now: those of dead processes are not. */
  ghost function OpenNow(k: World): (o: set<(Pid, Fd)>) {
    set x | x in k.open && x.0 !in k.dead
  }

  /** When no process is in the middle of a `close`, and none has made a socket that the tracer takes for a TCP socket
      wrongly, the table shows exactly the open TCP sockets of the processes that live, each in one entry under its own
      key; all of it is exact if and only if no process died with a TCP socket open. */
  lemma {:induction false} QuietTableIsExact(cfg: Config, child: Pid, es: seq<Stop>, p: Pid, f: Fd)
    requires cfg.Valid() && Injective(cfg) && Legal(child, es) && OnlyTcp(child, es)
    requires forall q: Pid :: CallOf(After(child, es), q).In? ==> CallOf(After(child, es), q).nr != SYS_CLOSE
    ensures f >= 0 && p !in After(child, es).dead ==>
              ((p, f) in OpenNow(After(child, es)) <==> Entered(cfg, Run(cfg, child, es).socks, p, f))
    ensures Claims(cfg, Run(cfg, child, es).socks) == multiset(OpenNow(After(child, es))) <==>
              forall x :: x in After(child, es).open ==> x.0 !in After(child, es).dead
  {
    assert Determines(cfg);
    hide Injective, OwnerOf, Determines;
    var k := After(child, es);
    ExactTracking(cfg, child, es);
    ExactIffFinds(cfg, child, es);
    assert es[..|es|] == es;
    assert Held(k) == k.open;
    if f >= 0 {
      ClaimsEntered(cfg, Run(cfg, child, es).socks, p, f);
    }
    assert (p, f) in multiset(k.open) <==> (p, f) in k.open;
    SameSets(k.open, OpenNow(k));
  }

  lemma {:induction false} SameSets(a: set<(Pid, Fd)>, b: set<(Pid, Fd)>)
    ensures multiset(a) == multiset(b) <==> a == b
  {
    if multiset(a) == multiset(b) {
      forall x
        ensures x in a <==> x in b
      {
        assert x in multiset(a) <==> x in multiset(b);
      }
    }
  }
}
