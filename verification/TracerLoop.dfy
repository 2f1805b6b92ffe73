/** The tracer as it runs: global tables that its handlers change, and the loop over the stops. */
module TracerLoop {
  import opened Memory
  import opened Lines
  import opened Options
  import opened Tracer
  import opened StringSet

  class Tracing {
    const cfg: Config
    const black: StrSet?
    const white: StrSet?
    var procs: seq<Proc>
    var socks: seq<Sock>
    var fifo: seq<Announcement>
    ghost var rewrites: seq<Rewrite>

    ghost function Tables(): (s: State)
      reads this
    {
      State(procs, socks, fifo, rewrites)
    }

    constructor (cfg: Config, black: StrSet?, white: StrSet?, child: Pid)
      ensures Tables() == Start(child) && this.cfg == cfg && this.black == black && this.white == white
    {
      this.cfg, this.black, this.white := cfg, black, white;
      procs, socks, fifo, rewrites := [Proc(child, true, false, 0)], [], [], [];
    }

    method FindProcInfo(pid: Pid) returns (i: nat)
      ensures i == FirstProc(procs, pid)
    {
      i := 0;
      while i < |procs| && procs[i].pid != pid
        invariant i <= |procs| && forall j :: 0 <= j < i ==> procs[j].pid != pid
      {
        i := i + 1;
      }
      FirstProcAt(procs, pid, i);
    }

    static lemma {:induction false} FirstProcAt(procs: seq<Proc>, pid: Pid, i: nat)
      requires i <= |procs| && (i < |procs| ==> procs[i].pid == pid) && forall j :: 0 <= j < i ==> procs[j].pid != pid
      ensures i == FirstProc(procs, pid)
    {
      var k := FirstProc(procs, pid);
    }

    method AllocProcInfo(pid: Pid) returns (i: nat)
      requires FirstProc(procs, pid) == |procs|
      modifies this`procs
      ensures procs == Known(old(procs), pid) && i == FirstProc(procs, pid)
    {
      NewProcFirst(procs, pid);
      i := |procs|;
      procs := procs + [Proc(pid, false, false, 0)];
    }

    /** The entry that its bucket chain shows first, which with equal keys is the one at `pick`. */
    method FindSocketInfo(key: int, pick: nat) returns (i: nat)
      ensures i == FindSock(socks, key, pick)
    {
      if pick < |socks| && socks[pick].key == key {
        return pick;
      }
      i := 0;
      while i < |socks| && socks[i].key != key
        invariant i <= |socks| && forall j :: 0 <= j < i ==> socks[j].key != key
      {
        i := i + 1;
      }
      var k := FirstSock(socks, key);
    }

    method AddSocketInfo(s: Sock)
      modifies this`socks
      ensures socks == old(socks) + [s]
    {
      socks := socks + [s];
    }

    method DelSocketInfo(i: nat)
      requires i < |socks|
      modifies this`socks
      ensures socks == Removed(old(socks), i) == old(socks)[..i] + old(socks)[i + 1..]
    {
      socks := socks[..i] + socks[i + 1..];
    }

    method SocketPreHandle(e: Stop)
      modifies this`socks
      ensures Tables() == SocketPre(cfg, old(Tables()), e)
      ensures var domain, typ := ToInt(e.regs.arg0), ToInt(e.regs.arg1);
              socks == if typ % 2 == 1 && (domain == 2 || domain == 10)
                       then old(socks) + [Sock(-1, cfg.key(7777777, e.child), domain, typ)] else old(socks)
    {
      var domain, typ := ToInt(e.regs.arg0), ToInt(e.regs.arg1);
      if typ % 2 < 1 || (domain != AF_INET && domain != AF_INET6) {
        return;
      }
      AddSocketInfo(Sock(-1, cfg.key(MAGIC_FD, e.child), domain, typ));
    }

    method ClosePreHandle(e: Stop)
      modifies this`socks
      ensures Tables() == ClosePre(cfg, old(Tables()), e)
      ensures var i := FindSock(old(socks), cfg.key(ToInt(e.regs.arg0), e.child), e.pick);
              socks == if i == |old(socks)| then old(socks) else old(socks)[..i] + old(socks)[i + 1..]
    {
      var fd := ToInt(e.regs.arg0);
      var si := FindSocketInfo(cfg.key(fd, e.child), e.pick);
      if si < |socks| {
        DelSocketInfo(si);
      }
    }

    method SocketExitingHandle(e: Stop, fd: Fd)
      requires fd == e.regs.ret
      modifies this`socks
      ensures Tables() == SocketExiting(cfg, old(Tables()), e)
      ensures var i := FindSock(old(socks), cfg.key(7777777, e.child), e.pick);
              socks == if i == |old(socks)| then old(socks)
                       else old(socks)[..i] + old(socks)[i + 1..] + [old(socks)[i].(fd := fd, key := cfg.key(fd, e.child))]
    {
      var i := FindSocketInfo(cfg.key(MAGIC_FD, e.child), e.pick);
      if i == |socks| {
        return;
      }
      var si := socks[i];
      DelSocketInfo(i);
      AddSocketInfo(si.(fd := fd, key := cfg.key(fd, e.child)));
    }

    ghost predicate Ready()
      reads black, if black == null then {} else {black.buckets} + black.members
      reads white, if white == null then {} else {white.buckets} + white.members
    {
      && (black != null ==> black.Valid()) && (white != null ==> white.Valid())
      && forall ip {:trigger cfg.ignore(ip)} :: cfg.ignore(ip) <==> Ignored(Listed(black), Listed(white), ip)
    }

    method ReadDestination(e: Stop, child: Tracee) returns (family: nat, dest: Option<Announcement>)
      requires child.mem == e.mem
      ensures family == Family(e.mem, e.regs.arg1) && dest == Destination(cfg, e.mem, e.regs.arg1, e.child)
    {
      var destSa := child.GetData(e.regs.arg1, 16);
      family := Little(destSa[..2]);
      if family == AF_INET {
        return family, Some(Announcement(cfg.ntoa(destSa[4..8]), Big(destSa[2..4]), e.child));
      } else if family == AF_INET6 {
        var destSa6 := child.GetData(e.regs.arg1, 28);
        return family, Some(Announcement(cfg.ntop(destSa6[8..24]), Big(destSa6[2..4]), e.child));
      } else {
        return family, None;
      }
    }

    method Ignores(ip: string) returns (ignore: bool)
      requires Ready()
      ensures ignore == cfg.ignore(ip)
    {
      ignore := IsIgnore(black, white, ip);
    }

    method ConnectPreHandle(e: Stop, child: Tracee)
      requires cfg.Valid() && Ready() && child.mem == e.mem
      modifies this`fifo, this`rewrites, child
      ensures Ready() && (Tables(), child.mem) == ConnectPre(cfg, old(Tables()), e)
    {
      hide Destination, Family, Read, Written, FindSock, ToInt, Ready;
      var si := FindSocketInfo(cfg.key(ToInt(e.regs.arg0), e.child), e.pick);
      if si == |socks| {
        return;
      }
      var family, dest := ReadDestination(e, child);
      if dest.None? {
        return;
      }
      var ignore := Ignores(dest.value.ip);
      if ignore {
        return;
      }
      if family == AF_INET {
        child.PutData(e.regs.arg1, cfg.proxy4, cfg.junk);
      } else {
        child.PutData(e.regs.arg1, cfg.proxy6, cfg.junk);
      }
      if e.writeOk {
        fifo := fifo + [dest.value];
      }
      rewrites := rewrites + [RewriteOf(cfg, e, dest.value)];
    }

    method Dispatch(csn: int, e: Stop, child: Tracee)
      requires cfg.Valid() && Ready() && child.mem == e.mem && csn == e.regs.nr
      modifies this`socks, this`fifo, this`rewrites, child
      ensures Ready() && (Tables(), child.mem) == Entering(cfg, old(Tables()), e)
      ensures if csn == 42 then (Tables(), child.mem) == ConnectPre(cfg, old(Tables()), e)
              else child.mem == e.mem && Tables() == if csn == 41 then SocketPre(cfg, old(Tables()), e)
                                                     else if csn == 3 then ClosePre(cfg, old(Tables()), e) else old(Tables())
    {
      hide SocketPre, ConnectPre, ClosePre, Ready;
      if csn == SYS_SOCKET {
        SocketPreHandle(e);
      } else if csn == SYS_CONNECT {
        ConnectPreHandle(e, child);
      } else if csn == SYS_CLOSE {
        ClosePreHandle(e);
      }
    }

    method TraceSyscallEntering(i: nat, e: Stop, child: Tracee)
      requires cfg.Valid() && Ready() && child.mem == e.mem && i < |procs|
      modifies this, child
      ensures var (s, m) := Entering(cfg, old(Tables()), e);
              Ready() && child.mem == m && Tables() == s.(procs := old(procs)[i := old(procs)[i].(csn := e.regs.nr, inSyscall := true)])
    {
      hide Entering, Ready;
      procs := procs[i := procs[i].(csn := e.regs.nr)];
      EnteringApart(cfg, old(Tables()), procs, e);
      Dispatch(procs[i].csn, e, child);
      procs := procs[i := procs[i].(inSyscall := true)];
    }

    method TraceSyscallExiting(i: nat, e: Stop) returns (ret: int, ended: bool)
      requires i < |procs|
      modifies this`procs, this`socks
      ensures var p := old(procs)[i];
              var out := old(procs)[i := p.(inSyscall := false)];
              && ended == (p.csn == SYS_SOCKET && e.retErrno != 0)
              && ret == (if p.csn == SYS_EXIT || p.csn == SYS_EXIT_GROUP then -1 else 0)
              && Tables() ==
                if ended then old(Tables())
                else if p.csn == SYS_SOCKET then SocketExiting(cfg, old(Tables()), e).(procs := out)
                else old(Tables()).(procs := out)
    {
      hide SocketExiting;
      ret, ended := 0, false;
      if procs[i].csn == SYS_EXIT || procs[i].csn == SYS_EXIT_GROUP {
        ret := -1;
      } else if procs[i].csn == SYS_SOCKET {
        if e.retErrno != 0 {
          return 0, true;
        }
        SocketExitingHandle(e, e.regs.ret);
      }
      procs := procs[i := procs[i].(inSyscall := false)];
    }

    method TraceSyscall(i: nat, e: Stop, child: Tracee) returns (outcome: Outcome)
      requires cfg.Valid() && Ready() && child.mem == e.mem && i < |procs|
      modifies this, child
      ensures Ready() && Result(Tables(), child.mem, outcome) == Tracer.TraceSyscall(cfg, old(Tables()), i, e)
    {
      hide Entering, SocketExiting, Ready;
      if procs[i].inSyscall {
        var ret, ended := TraceSyscallExiting(i, e);
        if ended {
          return Ended(if e.retErrno == ESRCH then 0 else e.retErrno);
        }
        return if ret < 0 then Parked else Restart(e, 0);
      } else {
        TraceSyscallEntering(i, e, child);
        return Restart(e, 0);
      }
    }

    method FindOrAlloc(pid: Pid) returns (i: nat)
      modifies this`procs
      ensures procs == Known(old(procs), pid) && i == FirstProc(procs, pid) < |procs|
    {
      i := FindProcInfo(pid);
      if i == |procs| {
        i := AllocProcInfo(pid);
      }
    }

    /** One turn of the loop, from what `wait` returned to the request that resumes the process. */
    method TakeStop(e: Stop, child: Tracee) returns (outcome: Outcome)
      requires cfg.Valid() && Ready() && child.mem == e.mem
      modifies this, child
      ensures Ready() && Result(Tables(), child.mem, outcome) == HandleStop(cfg, old(Tables()), e)
    {
      hide Known, FirstProc, Tracer.TraceSyscall, Ready;
      var i := FindOrAlloc(e.child);
      assert !procs[i].startup ==> procs[i := procs[i].(startup := false)] == procs;
      if procs[i].startup {
        procs := procs[i := procs[i].(startup := false)];
        if e.optErrno != 0 {
          return Ended(e.optErrno);
        }
      }
      match e.status {
        case Exited => return Parked;
        case Signaled => return Parked;
        case Stopped(sig, event) =>
          if event != 0 || sig == SIGSTOP {
            return Restart(e, 0);
          }
          if sig != SIGTRAP && e.siginfo {
            return Restart(e, sig);
          }
      }
      outcome := TraceSyscall(i, e, child);
    }

    /** The loop over the stops that `wait` returns, until it has none left or a request fails. Every stopped process
        is given with its memory; `n` stops are handled. */
    method DoTrace(ghost child: Pid, stops: seq<Stop>) returns (code: int, n: nat)
      requires cfg.Valid() && Ready() && Tables() == Start(child)
      modifies this
      ensures Ready() && n <= |stops| && Tables() == Run(cfg, child, stops[..n])
      ensures forall j :: 0 <= j < n - 1 ==> !OutcomeAt(cfg, child, stops, j).Ended?
      ensures if n > 0 && OutcomeAt(cfg, child, stops, n - 1).Ended? then code == OutcomeAt(cfg, child, stops, n - 1).status
              else n == |stops| && code == 0
    {
      hide HandleStop, Ready;
      n := 0;
      while n < |stops|
        invariant n <= |stops| && Ready() && Tables() == Run(cfg, child, stops[..n])
        invariant forall j :: 0 <= j < n ==> !OutcomeAt(cfg, child, stops, j).Ended?
      {
        var tracee := new Tracee(stops[n].mem);
        assert stops[..n + 1][..n] == stops[..n];
        var outcome := TakeStop(stops[n], tracee);
        n := n + 1;
        if outcome.Ended? {
          return outcome.status, n;
        }
      }
      return 0, n;
    }
  }
}
