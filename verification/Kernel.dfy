/** The kernel as the tracer's environment: which stops can follow which, and what it knows of every process.
    The assumptions are the ones the tracer relies on: the stops of a process for system calls alternate, SIGTRAP
    without an event comes from a system call only, no group stop is taken for one, and no pid comes back. */
module Kernel {
  import opened Tracer

  datatype Call = User | In(nr: int, arg0: int, arg1: int)

  /** The call every process is in (a dead one: the one it died in), the dead ones, and the TCP sockets that a
      process made and has not closed. */
  datatype World = World(calls: map<Pid, Call>, dead: set<Pid>, open: set<(Pid, Fd)>)

  function Birth(child: Pid): (k: World) {
    World(map[child := User], {}, {})
  }

  predicate SyscallStop(e: Stop) {
    e.status == Stopped(SIGTRAP, 0)
  }

  function CallOf(k: World, pid: Pid): (c: Call) {
    if pid in k.calls then k.calls[pid] else User
  }

  predicate SocketCall(c: Call) {
    c.In? && c.nr == SYS_SOCKET
  }

  const SOCK_STREAM := 1

  /** What makes a TCP socket: an inet domain, and SOCK_STREAM in the four bits of the type that are not flags. */
  predicate IsTcp(arg0: int, arg1: int) {
    (ToInt(arg0) == AF_INET || ToInt(arg0) == AF_INET6) && ToInt(arg1) % 16 == SOCK_STREAM
  }

  predicate TcpCall(c: Call) {
    SocketCall(c) && IsTcp(c.arg0, c.arg1)
  }

  /** A call that the tracer takes for one that makes a TCP socket. */
  predicate NotedCall(c: Call) {
    SocketCall(c) && OddInet(c.arg0, c.arg1)
  }

  /** The tracer notes every TCP socket, and exactly the sockets of the other odd types wrongly: raw ones, say. */
  lemma {:induction false} NotedIffTcp(arg0: int, arg1: int)
    ensures IsTcp(arg0, arg1) ==> OddInet(arg0, arg1)
    ensures (OddInet(arg0, arg1) <==> IsTcp(arg0, arg1)) <==>
            (ToInt(arg0) == AF_INET || ToInt(arg0) == AF_INET6 ==> ToInt(arg1) % 2 == 0 || ToInt(arg1) % 16 == SOCK_STREAM)
    ensures OddInet(AF_INET, 3) && !IsTcp(AF_INET, 3)
  {
    IntIsItself(AF_INET);
    IntIsItself(3);
    OddFromSixteen(ToInt(arg1));
    hide ToInt;
  }

  lemma {:induction false} OddFromSixteen(t: int)
    ensures t % 16 == 1 ==> t % 2 == 1
  {
    if t % 16 == 1 {
      assert t == 2 * (8 * (t / 16)) + 1;
    }
  }

  lemma {:induction false} IntIsItself(n: Fd)
    ensures ToInt(n) == n
  {
  }

  /** The end of a call that made a socket, though not a TCP socket, which the tracer took for one. */
  predicate Stray(k: World, e: Stop) {
    var c := CallOf(k, e.child);
    SyscallStop(e) && NotedCall(c) && !TcpCall(c) && e.regs.ret >= 0
  }

  /** No process makes such a socket. */
  ghost predicate OnlyTcp(child: Pid, es: seq<Stop>) {
    es == [] || (OnlyTcp(child, es[..|es| - 1]) && !Stray(After(child, es[..|es| - 1]), es[|es| - 1]))
  }

  /** What the kernel lets happen, whether or not the tracer's requests succeed. */
  predicate Permitted(k: World, e: Stop) {
    && e.child !in k.dead
    && (e.status.Stopped? && e.status.event == 0 && e.status.sig != SIGTRAP && e.status.sig != SIGSTOP ==> e.siginfo)
    && (SyscallStop(e) && CallOf(k, e.child).In? && CallOf(k, e.child).nr == SYS_SOCKET ==>
          e.regs.ret != MAGIC_FD && (e.child, e.regs.ret) !in k.open)
  }

  /** A failure of one of these requests ends the tracer, so a run is what comes before it. */
  predicate Allowed(k: World, e: Stop) {
    Permitted(k, e) && e.optErrno == 0 && e.retErrno == 0
  }

  /** The sockets after a call of `pid` ends with `ret`. */
  function OpenAfter(k: World, pid: Pid, c: Call, ret: Fd): (o: set<(Pid, Fd)>) {
    if TcpCall(c) && ret >= 0 then k.open + {(pid, ret)}
    else if c.In? && c.nr == SYS_CLOSE then k.open - {(pid, ToInt(c.arg0))}
    else k.open
  }

  function Happens(k: World, e: Stop): (k': World) {
    var c := CallOf(k, e.child);
    if !e.status.Stopped? then World(k.calls[e.child := c], k.dead + {e.child}, k.open)
    else if !SyscallStop(e) then k.(calls := k.calls[e.child := c])
    else if c.User? then k.(calls := k.calls[e.child := In(e.regs.nr, e.regs.arg0, e.regs.arg1)])
    else World(k.calls[e.child := User], k.dead, OpenAfter(k, e.child, c, e.regs.ret))
  }

  function After(child: Pid, es: seq<Stop>): (k: World) {
    if es == [] then Birth(child) else Happens(After(child, es[..|es| - 1]), es[|es| - 1])
  }

  /** `es` is a run: the kernel lets every stop happen where it stands. */
  predicate Legal(child: Pid, es: seq<Stop>) {
    es == [] || (Legal(child, es[..|es| - 1]) && Allowed(After(child, es[..|es| - 1]), es[|es| - 1]))
  }

  type Calls = map<Pid, Call>

  ghost predicate ProcOk(p: Proc, calls: Calls) {
    && p.pid in calls
    && (p.inSyscall <==> calls[p.pid].In?)
    && (p.inSyscall ==> p.csn == calls[p.pid].nr)
  }

  /** Every process the kernel has shown has one entry, which says what call it is in. */
  ghost predicate Follows(procs: seq<Proc>, calls: Calls) {
    && (forall i {:trigger procs[i]} :: 0 <= i < |procs| ==> ProcOk(procs[i], calls))
    && (forall i, j {:trigger procs[i], procs[j]} :: 0 <= i < j < |procs| ==> procs[i].pid != procs[j].pid)
    && (forall pid {:trigger pid in calls} :: pid in calls ==> FirstProc(procs, pid) < |procs|)
  }

  lemma {:induction false} Unchanged(procs: seq<Proc>, i: nat, p: Proc, pid: Pid)
    requires i < |procs| && p.pid == procs[i].pid && FirstProc(procs, pid) < |procs|
    ensures FirstProc(procs[i := p], pid) < |procs|
  {
    var j := FirstProc(procs, pid);
    assert procs[i := p][j].pid == pid;
  }

  lemma {:induction false} AlreadyKnown(procs: seq<Proc>, calls: Calls, pid: Pid)
    requires Follows(procs, calls) && pid in calls
    ensures Known(procs, pid) == procs && ProcOk(procs[FirstProc(procs, pid)], calls)
  {
  }

  lemma {:induction false} StillUnknown(procs: seq<Proc>, calls: Calls, pid: Pid)
    requires Follows(procs, calls) && pid !in calls
    ensures FirstProc(procs, pid) == |procs|
  {
  }

  lemma {:induction false} NewcomerFollows(procs: seq<Proc>, calls: Calls, pid: Pid)
    requires Follows(procs, calls) && pid !in calls
    ensures Follows(procs + [Proc(pid, false, false, 0)], calls[pid := User])
    ensures ProcOk(Proc(pid, false, false, 0), calls[pid := User])
  {
    var r := procs + [Proc(pid, false, false, 0)];
    forall q {:trigger q in calls[pid := User]} | q in calls[pid := User]
      ensures FirstProc(r, q) < |r|
    {
      if q != pid {
        assert r[FirstProc(procs, q)].pid == q;
      } else {
        assert r[|procs|].pid == q;
      }
    }
  }

  lemma {:induction false} KnownFollows(procs: seq<Proc>, k: World, pid: Pid)
    requires Follows(procs, k.calls)
    ensures var r, i := Known(procs, pid), FirstProc(Known(procs, pid), pid);
            Follows(r, k.calls[pid := CallOf(k, pid)]) && i < |r| && r[i].pid == pid && ProcOk(r[i], k.calls[pid := CallOf(k, pid)])
  {
    var calls := k.calls[pid := CallOf(k, pid)];
    if pid in k.calls {
      assert calls == k.calls;
      AlreadyKnown(procs, k.calls, pid);
      hide Follows, ProcOk;
    } else {
      StillUnknown(procs, k.calls, pid);
      NewcomerFollows(procs, k.calls, pid);
      NewProcFirst(procs, pid);
      hide Follows, ProcOk;
    }
  }

  lemma {:induction false} EntryFollows(procs: seq<Proc>, calls: Calls, i: nat, p: Proc, c: Call)
    requires Follows(procs, calls) && i < |procs| && p.pid == procs[i].pid
    requires (p.inSyscall <==> c.In?) && (p.inSyscall ==> p.csn == c.nr)
    ensures Follows(procs[i := p], calls[p.pid := c])
  {
    assert ProcOk(procs[i], calls);
    forall q {:trigger q in calls} | q in calls
      ensures FirstProc(procs[i := p], q) < |procs[i := p]|
    {
      Unchanged(procs, i, p, q);
    }
  }

  lemma {:induction false} StepFollows(cfg: Config, s: State, k: World, e: Stop)
    requires cfg.Valid() && Follows(s.procs, k.calls) && Allowed(k, e)
    ensures Follows(HandleStop(cfg, s, e).state.procs, Happens(k, e).calls)
  {
    hide Follows, Known, FirstProc, Entering, SocketExiting;
    KnownFollows(s.procs, k, e.child);
    var procs, c := Known(s.procs, e.child), CallOf(k, e.child);
    var calls, i := k.calls[e.child := c], FirstProc(procs, e.child);
    var p := procs[i].(startup := false);
    EntryFollows(procs, calls, i, p, c);
    assert calls[e.child := c] == calls;
    var c' := if c.User? then In(e.regs.nr, e.regs.arg0, e.regs.arg1) else User;
    var p' := if p.inSyscall then p.(inSyscall := false) else p.(csn := e.regs.nr, inSyscall := true);
    EntryFollows(procs, calls, i, p', c');
    assert procs[i := p][i := p'] == procs[i := p'];
    assert calls[e.child := c'] == k.calls[e.child := c'];
  }

  /** Apart from the process table, a stop does what the call that the kernel knows the process to be in asks for. */
  lemma {:induction false} StopEffect(cfg: Config, s: State, k: World, e: Stop)
    requires cfg.Valid() && Follows(s.procs, k.calls) && Allowed(k, e)
    ensures var c, r := CallOf(k, e.child), HandleStop(cfg, s, e);
            var s' := if !SyscallStop(e) then s
                      else if c.User? then Entering(cfg, s, e).0
                      else if c.nr == SYS_SOCKET then SocketExiting(cfg, s, e)
                      else s;
            && r.state == s'.(procs := r.state.procs)
            && r.mem == if SyscallStop(e) && c.User? then Entering(cfg, s, e).1 else e.mem
  {
    hide Known, Follows, FirstProc, Entering, SocketExiting;
    KnownFollows(s.procs, k, e.child);
    var procs, i := Known(s.procs, e.child), FirstProc(Known(s.procs, e.child), e.child);
    var p := procs[i := procs[i].(startup := false)];
    ExitingApart(cfg, s, p, e);
    EnteringApart(cfg, s, p, e);
  }

  /** In every run, with any interleaving of the processes, the table follows the kernel: one entry for every
      process, marked when the process is in a system call, with the number it entered with. */
  lemma {:induction false} TableFollowsKernel(cfg: Config, child: Pid, es: seq<Stop>)
    requires cfg.Valid() && Legal(child, es)
    ensures Follows(Run(cfg, child, es).procs, After(child, es).calls)
  {
    if es == [] {
      assert FirstProc(Start(child).procs, child) == 0;
    } else {
      TableFollowsKernel(cfg, child, es[..|es| - 1]);
      StepFollows(cfg, Run(cfg, child, es[..|es| - 1]), After(child, es[..|es| - 1]), es[|es| - 1]);
    }
  }

  /** Stop `i` is where `pid` entered the call that it is in after `es`. */
  ghost predicate EnteredAt(child: Pid, es: seq<Stop>, pid: Pid, i: nat)
    requires i < |es|
  {
    && SyscallStop(es[i]) && es[i].child == pid && CallOf(After(child, es[..i]), pid).User?
    && CallOf(After(child, es), pid) == In(es[i].regs.nr, es[i].regs.arg0, es[i].regs.arg1)
    && forall m {:trigger es[m]} :: i < m < |es| ==> !(SyscallStop(es[m]) && es[m].child == pid)
  }

  lemma {:induction false} EntryOf(child: Pid, es: seq<Stop>, pid: Pid) returns (i: nat)
    requires CallOf(After(child, es), pid).In?
    ensures i < |es| && EnteredAt(child, es, pid, i)
  {
    var front, e := es[..|es| - 1], es[|es| - 1];
    if SyscallStop(e) && e.child == pid {
      i := |es| - 1;
    } else {
      i := EntryOf(child, front, pid);
      assert front[..i] == es[..i];
      assert forall m :: 0 <= m < |front| ==> front[m] == es[m];
    }
  }

  /** At every exit stop of a run the tracer's entry holds the number that the process's last entry stop, the one it
      has made no system call stop since, showed. */
  lemma {:induction false} ExitSeesEntry(cfg: Config, child: Pid, es: seq<Stop>, pid: Pid) returns (i: nat)
    requires cfg.Valid() && Legal(child, es) && CallOf(After(child, es), pid).In?
    ensures i < |es| && EnteredAt(child, es, pid, i)
    ensures var procs := Run(cfg, child, es).procs;
            var p := FirstProc(procs, pid);
            p < |procs| && procs[p].inSyscall && procs[p].csn == es[i].regs.nr
  {
    TableFollowsKernel(cfg, child, es);
    i := EntryOf(child, es, pid);
    var procs := Run(cfg, child, es).procs;
    assert ProcOk(procs[FirstProc(procs, pid)], After(child, es).calls);
  }

  // ---- How a turn ends ----

  /** Only the first process is marked as just started, and only until its first stop. */
  ghost predicate Marked(procs: seq<Proc>, child: Pid, unseen: bool) {
    forall i {:trigger procs[i]} :: 0 <= i < |procs| ==> (procs[i].startup <==> procs[i].pid == child && unseen)
  }

  /** A turn changes the entry of the stopped process only, and takes its mark away. */
  lemma {:induction false} StepProcs(cfg: Config, s: State, e: Stop)
    requires cfg.Valid()
    ensures var procs, i, after := Known(s.procs, e.child), FirstProc(Known(s.procs, e.child), e.child), HandleStop(cfg, s, e).state.procs;
            |after| == |procs| && after[i].pid == e.child && !after[i].startup
            && forall j {:trigger after[j]} :: 0 <= j < |procs| && j != i ==> after[j] == procs[j]
  {
    hide Entering, SocketExiting, Known, FirstProc;
  }

  lemma {:induction false} KnownMarked(procs: seq<Proc>, calls: Calls, pid: Pid, child: Pid, unseen: bool)
    requires Follows(procs, calls) && child in calls && Marked(procs, child, unseen)
    ensures Marked(Known(procs, pid), child, unseen)
    ensures var r, i := Known(procs, pid), FirstProc(Known(procs, pid), pid);
            forall j {:trigger r[j]} :: 0 <= j < |r| && j != i ==> r[j].pid != pid
  {
    if pid in calls {
      AlreadyKnown(procs, calls, pid);
    } else {
      StillUnknown(procs, calls, pid);
      NewProcFirst(procs, pid);
    }
  }

  lemma {:induction false} StepMarked(cfg: Config, s: State, k: World, e: Stop, child: Pid, unseen: bool)
    requires cfg.Valid() && Follows(s.procs, k.calls) && child in k.calls && Marked(s.procs, child, unseen)
    ensures Marked(HandleStop(cfg, s, e).state.procs, child, unseen && e.child != child)
  {
    KnownMarked(s.procs, k.calls, e.child, child, unseen);
    StepProcs(cfg, s, e);
    hide Follows, Known, FirstProc, HandleStop;
  }

  /** None of the stops is one of `child`. */
  ghost predicate Unseen(child: Pid, es: seq<Stop>) {
    forall j {:trigger es[j]} :: 0 <= j < |es| ==> es[j].child != child
  }

  lemma {:induction false} UnseenMore(child: Pid, es: seq<Stop>)
    requires es != []
    ensures Unseen(child, es) <==> Unseen(child, es[..|es| - 1]) && es[|es| - 1].child != child
  {
    var front := es[..|es| - 1];
    assert forall j :: 0 <= j < |front| ==> front[j] == es[j];
  }

  lemma {:induction false} RunMarked(cfg: Config, child: Pid, es: seq<Stop>)
    requires cfg.Valid() && Legal(child, es)
    ensures Marked(Run(cfg, child, es).procs, child, Unseen(child, es)) && child in After(child, es).calls
  {
    if es != [] {
      var front, e := es[..|es| - 1], es[|es| - 1];
      RunMarked(cfg, child, front);
      TableFollowsKernel(cfg, child, front);
      UnseenMore(child, es);
      hide HandleStop, Follows, Marked, Unseen;
      StepMarked(cfg, Run(cfg, child, front), After(child, front), e, child, Unseen(child, front));
    }
  }

  lemma {:induction false} TurnEnds(cfg: Config, s: State, k: World, e: Stop, child: Pid, unseen: bool)
    requires cfg.Valid() && Follows(s.procs, k.calls) && Permitted(k, e) && child in k.calls && Marked(s.procs, child, unseen)
    ensures var c, o := CallOf(k, e.child), HandleStop(cfg, s, e).outcome;
            var announced := e.status.Stopped? && e.status.event == 0 && e.status.sig != SIGTRAP && e.status.sig != SIGSTOP;
            var exiting := SyscallStop(e) && c.In?;
            if e.child == child && unseen && e.optErrno != 0 then o == Ended(e.optErrno)
            else if !e.status.Stopped? || (exiting && (c.nr == 60 || c.nr == 231)) then o == Parked
            else if exiting && c.nr == 41 && e.retErrno != 0 then o == Ended(if e.retErrno == 3 then 0 else e.retErrno)
            else if e.resumeErrno == 0 then o == Resumed(if announced then e.status.sig else 0)
            else if e.resumeErrno == 3 then o == Parked
            else o == Ended(-1)
  {
    hide Entering, SocketExiting;
    KnownFollows(s.procs, k, e.child);
    KnownMarked(s.procs, k.calls, e.child, child, unseen);
    var procs, i := Known(s.procs, e.child), FirstProc(Known(s.procs, e.child), e.child);
    assert procs[i].startup <==> e.child == child && unseen;
    hide Follows, Known, FirstProc, Marked;
  }

  /** How the turn for a stop ends that comes after a run. The tracer ends with the error of setting the options at the
      first stop of the first process, with that of reading the result of `socket` unless the process is gone, when it
      ends with 0, and with -1 where the process can not be resumed though it is there. Otherwise a stopped process runs
      on, but for the exit of `exit` and `exit_group`, and is given a signal exactly at the stop that announces it. */
  lemma {:induction false} StopOutcome(cfg: Config, child: Pid, es: seq<Stop>, e: Stop)
    requires cfg.Valid() && Legal(child, es) && Permitted(After(child, es), e)
    ensures var c, o := CallOf(After(child, es), e.child), OutcomeAt(cfg, child, es + [e], |es|);
            var announced := e.status.Stopped? && e.status.event == 0 && e.status.sig != SIGTRAP && e.status.sig != SIGSTOP;
            var exiting := SyscallStop(e) && c.In?;
            var first := e.child == child && forall j :: 0 <= j < |es| ==> es[j].child != child;
            if first && e.optErrno != 0 then o == Ended(e.optErrno)
            else if !e.status.Stopped? || (exiting && (c.nr == 60 || c.nr == 231)) then o == Parked
            else if exiting && c.nr == 41 && e.retErrno != 0 then o == Ended(if e.retErrno == 3 then 0 else e.retErrno)
            else if e.resumeErrno == 0 then o == Resumed(if announced then e.status.sig else 0)
            else if e.resumeErrno == 3 then o == Parked
            else o == Ended(-1)
  {
    TableFollowsKernel(cfg, child, es);
    RunMarked(cfg, child, es);
    assert (es + [e])[..|es|] == es;
    hide HandleStop, Run, After, Follows, Marked, Legal, Permitted;
    TurnEnds(cfg, Run(cfg, child, es), After(child, es), e, child, Unseen(child, es));
  }
}
