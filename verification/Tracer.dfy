/** What the tracer does at one stop of a traced process, as a function of its tables, the stop and the
    process's registers and memory. */
module Tracer {
  import opened Memory
  import opened Lines
  import opened Options

  const SYS_CLOSE := 3
  const SYS_SOCKET := 41
  const SYS_CONNECT := 42
  const SYS_EXIT := 60
  const SYS_EXIT_GROUP := 231
  const SIGTRAP := 5
  const SIGSTOP := 19
  const ESRCH := 3
  const AF_INET := 2
  const AF_INET6 := 10
  const MAGIC_FD: Fd := 7777777

  type Pid = p: nat | 0 < p < 0x8000_0000 witness 1

  /** A C `int`. */
  type Fd = f: int | -0x8000_0000 <= f < 0x8000_0000

  /** The `int` that a register is cut down to. */
  function ToInt(n: int): (r: Fd)
    ensures (n - r) % 0x1_0000_0000 == 0
  {
    (n + 0x8000_0000) % 0x1_0000_0000 - 0x8000_0000
  }

  /** The key of a socket entry, the ignore test, the proxy's two addresses, the two text forms of an address, and
      the bytes an unwritten word buffer holds. */
  datatype Config = Config(key: (Fd, Pid) -> int, ignore: string -> bool, proxy4: Bytes, proxy6: Bytes,
                           ntoa: Bytes -> string, ntop: Bytes -> string, junk: Bytes)
  {
    ghost predicate Valid() {
      |proxy4| == 16 && |proxy6| == 28 && |junk| == WORD
    }
  }

  datatype Proc = Proc(pid: Pid, startup: bool, inSyscall: bool, csn: int)
  datatype Sock = Sock(fd: Fd, key: int, domain: Fd, typ: Fd)

  /** One rewrite of a process's memory, with the destination read before it. */
  datatype Rewrite = Rewrite(pid: Pid, fd: Fd, addr: int, before: Mem, after: Mem, dest: Announcement, delivered: bool)

  /** The two tables, oldest entry first, the lines written to the FIFO, and the rewrites so far. */
  datatype State = State(procs: seq<Proc>, socks: seq<Sock>, fifo: seq<Announcement>, rewrites: seq<Rewrite>)

  datatype Status = Exited | Signaled | Stopped(sig: int, event: nat)

  datatype Regs = Regs(nr: int, ret: Fd, arg0: int, arg1: int)

  /** What `wait` and the requests to the stopped process yield. Of several entries with one key, `pick` is the one
      whose bucket chain position comes first; an errno of 0 means success. */
  datatype Stop = Stop(child: Pid, status: Status, siginfo: bool, regs: Regs, mem: Mem, pick: nat,
                       optErrno: int, retErrno: int, writeOk: bool, resumeErrno: int)

  /** Afterwards the process runs on, or is left stopped, or the tracer has ended. */
  datatype Outcome = Resumed(sig: int) | Parked | Ended(status: int)

  datatype Result = Result(state: State, mem: Mem, outcome: Outcome)

  function FirstProc(procs: seq<Proc>, pid: Pid): (i: nat)
    ensures i <= |procs| && (i < |procs| ==> procs[i].pid == pid)
    ensures forall j :: 0 <= j < i ==> procs[j].pid != pid
  {
    if procs == [] || procs[0].pid == pid then 0 else 1 + FirstProc(procs[1..], pid)
  }

  function FirstSock(socks: seq<Sock>, key: int): (i: nat)
    ensures i <= |socks| && (i < |socks| ==> socks[i].key == key)
    ensures forall j :: 0 <= j < i ==> socks[j].key != key
  {
    if socks == [] || socks[0].key == key then 0 else 1 + FirstSock(socks[1..], key)
  }

  /** The place of the entry that a lookup shows, or the length of the table. */
  function FindSock(socks: seq<Sock>, key: int, pick: nat): (i: nat)
    ensures i <= |socks| && (i < |socks| ==> socks[i].key == key)
    ensures i == |socks| ==> forall j :: 0 <= j < |socks| ==> socks[j].key != key
    ensures pick < |socks| && socks[pick].key == key ==> i == pick
    ensures !(pick < |socks| && socks[pick].key == key) ==> forall j :: 0 <= j < i ==> socks[j].key != key
  {
    if pick < |socks| && socks[pick].key == key then pick else FirstSock(socks, key)
  }

  function Removed(socks: seq<Sock>, i: nat): (r: seq<Sock>)
    requires i < |socks|
  {
    socks[..i] + socks[i + 1..]
  }

  /** The tracer's test for a TCP socket: an inet domain and a type whose SOCK_STREAM bit is set, which is any odd one. */
  predicate OddInet(arg0: int, arg1: int) {
    ToInt(arg1) % 2 == 1 && (ToInt(arg0) == AF_INET || ToInt(arg0) == AF_INET6)
  }

  function SocketPre(cfg: Config, s: State, e: Stop): (r: State) {
    if OddInet(e.regs.arg0, e.regs.arg1)
    then s.(socks := s.socks + [Sock(-1, cfg.key(MAGIC_FD, e.child), ToInt(e.regs.arg0), ToInt(e.regs.arg1))])
    else s
  }

  function SocketExiting(cfg: Config, s: State, e: Stop): (r: State) {
    var i := FindSock(s.socks, cfg.key(MAGIC_FD, e.child), e.pick);
    if i == |s.socks| then s
    else s.(socks := Removed(s.socks, i) + [s.socks[i].(fd := e.regs.ret, key := cfg.key(e.regs.ret, e.child))])
  }

  function ClosePre(cfg: Config, s: State, e: Stop): (r: State) {
    var i := FindSock(s.socks, cfg.key(ToInt(e.regs.arg0), e.child), e.pick);
    if i == |s.socks| then s else s.(socks := Removed(s.socks, i))
  }

  function Little(b: Bytes): (n: nat)
    requires |b| == 2
  {
    b[0] as nat + 256 * b[1] as nat
  }

  function Big(b: Bytes): (n: nat)
    requires |b| == 2
    ensures n < 65536
  {
    256 * b[0] as nat + b[1] as nat
  }

  /** The family of the address at `addr`. */
  function Family(m: Mem, addr: int): (n: nat) {
    Little(Read(m, addr, 16)[..2])
  }

  /** The destination that the address at `addr` names, if it is of one of the two families. */
  function Destination(cfg: Config, m: Mem, addr: int, pid: Pid): (d: Option<Announcement>) {
    if Family(m, addr) == AF_INET then
      var sa := Read(m, addr, 16);
      Some(Announcement(cfg.ntoa(sa[4..8]), Big(sa[2..4]), pid))
    else if Family(m, addr) == AF_INET6 then
      var sa := Read(m, addr, 28);
      Some(Announcement(cfg.ntop(sa[8..24]), Big(sa[2..4]), pid))
    else None
  }

  function ProxyFor(cfg: Config, m: Mem, addr: int): (sa: Bytes) {
    if Family(m, addr) == AF_INET then cfg.proxy4 else cfg.proxy6
  }

  /** The destination that this `connect` is redirected from, if it is. */
  function Redirected(cfg: Config, s: State, e: Stop): (d: Option<Announcement>) {
    var i := FindSock(s.socks, cfg.key(ToInt(e.regs.arg0), e.child), e.pick);
    if i == |s.socks| then None
    else
      var d := Destination(cfg, e.mem, e.regs.arg1, e.child);
      if d.None? || cfg.ignore(d.value.ip) then None else d
  }

  function RewriteOf(cfg: Config, e: Stop, d: Announcement): (w: Rewrite)
    requires cfg.Valid()
  {
    Rewrite(e.child, ToInt(e.regs.arg0), e.regs.arg1, e.mem,
            Written(e.mem, e.regs.arg1, ProxyFor(cfg, e.mem, e.regs.arg1), cfg.junk), d, e.writeOk)
  }

  function ConnectPre(cfg: Config, s: State, e: Stop): (r: (State, Mem))
    requires cfg.Valid()
  {
    var d := Redirected(cfg, s, e);
    if d.None? then (s, e.mem)
    else
      var w := RewriteOf(cfg, e, d.value);
      (s.(rewrites := s.rewrites + [w], fifo := if w.delivered then s.fifo + [w.dest] else s.fifo), w.after)
  }

  /** The destination, byte by byte: the family as the machine stores it, the port with its high byte first. */
  lemma {:induction false} DestinationIs(cfg: Config, m: Mem, addr: int, pid: Pid)
    ensures var sa, six := Read(m, addr, 16), Read(m, addr, 28);
            var family := sa[0] as nat + 256 * sa[1] as nat;
            && Family(m, addr) == family
            && Destination(cfg, m, addr, pid) ==
               if family == 2 then Some(Announcement(cfg.ntoa(sa[4..8]), 256 * sa[2] as nat + sa[3] as nat, pid))
               else if family == 10 then Some(Announcement(cfg.ntop(six[8..24]), 256 * six[2] as nat + six[3] as nat, pid))
               else None
  {
    hide Read;
  }

  /** A `connect` of a socket that has an entry, to a destination of one of the two families that is not ignored: the
      address of the proxy of that family is written over it, and the line goes out if it can be written. Any other one
      changes nothing. */
  lemma {:induction false} ConnectIs(cfg: Config, s: State, e: Stop)
    requires cfg.Valid()
    ensures var sa, six, addr := Read(e.mem, e.regs.arg1, 16), Read(e.mem, e.regs.arg1, 28), e.regs.arg1;
            var family := sa[0] as nat + 256 * sa[1] as nat;
            var dest := if family == 2 then Announcement(cfg.ntoa(sa[4..8]), 256 * sa[2] as nat + sa[3] as nat, e.child)
                        else Announcement(cfg.ntop(six[8..24]), 256 * six[2] as nat + six[3] as nat, e.child);
            var after := Written(e.mem, addr, if family == 2 then cfg.proxy4 else cfg.proxy6, cfg.junk);
            var rewrite := Rewrite(e.child, ToInt(e.regs.arg0), addr, e.mem, after, dest, e.writeOk);
            ConnectPre(cfg, s, e) ==
              if (exists i :: 0 <= i < |s.socks| && s.socks[i].key == cfg.key(ToInt(e.regs.arg0), e.child))
                && (family == 2 || family == 10) && !cfg.ignore(dest.ip)
              then (s.(rewrites := s.rewrites + [rewrite], fifo := if e.writeOk then s.fifo + [dest] else s.fifo), after)
              else (s, e.mem)
  {
    DestinationIs(cfg, e.mem, e.regs.arg1, e.child);
    hide Read, Written, Destination, Family, ToInt;
  }

  function Entering(cfg: Config, s: State, e: Stop): (r: (State, Mem))
    requires cfg.Valid()
  {
    if e.regs.nr == SYS_SOCKET then (SocketPre(cfg, s, e), e.mem)
    else if e.regs.nr == SYS_CONNECT then ConnectPre(cfg, s, e)
    else if e.regs.nr == SYS_CLOSE then (ClosePre(cfg, s, e), e.mem)
    else (s, e.mem)
  }

  /** The handlers do not look at the process table. */
  lemma {:induction false} ConnectApart(cfg: Config, s: State, procs: seq<Proc>, e: Stop)
    requires cfg.Valid()
    ensures var (s', m) := ConnectPre(cfg, s, e);
            ConnectPre(cfg, s.(procs := procs), e) == (s'.(procs := procs), m)
  {
    hide FindSock, Destination, RewriteOf;
    assert Redirected(cfg, s.(procs := procs), e) == Redirected(cfg, s, e);
    hide Redirected;
  }

  lemma {:induction false} ExitingApart(cfg: Config, s: State, procs: seq<Proc>, e: Stop)
    ensures SocketExiting(cfg, s.(procs := procs), e) == SocketExiting(cfg, s, e).(procs := procs)
  {
    hide FindSock, Removed;
  }

  lemma {:induction false} EnteringApart(cfg: Config, s: State, procs: seq<Proc>, e: Stop)
    requires cfg.Valid()
    ensures var (s', m) := Entering(cfg, s, e);
            Entering(cfg, s.(procs := procs), e) == (s'.(procs := procs), m)
  {
    hide FindSock, Removed, OddInet, ConnectPre;
    ConnectApart(cfg, s, procs, e);
  }

  /** PTRACE_SYSCALL, at the end of every turn that resumes the process. */
  function Restart(e: Stop, sig: int): (o: Outcome) {
    if e.resumeErrno == 0 then Resumed(sig) else if e.resumeErrno == ESRCH then Parked else Ended(-1)
  }

  function Resume(s: State, m: Mem, sig: int, e: Stop): (r: Result) {
    Result(s, m, Restart(e, sig))
  }

  /** One stop at the entry or the exit of a system call of the process at place `i`. */
  function TraceSyscall(cfg: Config, s: State, i: nat, e: Stop): (r: Result)
    requires cfg.Valid() && i < |s.procs|
  {
    var p := s.procs[i];
    if !p.inSyscall then
      var (s', m) := Entering(cfg, s, e);
      Resume(s'.(procs := s.procs[i := p.(csn := e.regs.nr, inSyscall := true)]), m, 0, e)
    else
      var out := s.procs[i := p.(inSyscall := false)];
      if p.csn == SYS_EXIT || p.csn == SYS_EXIT_GROUP then Result(s.(procs := out), e.mem, Parked)
      else if p.csn == SYS_SOCKET then
        if e.retErrno != 0 then Result(s, e.mem, Ended(if e.retErrno == ESRCH then 0 else e.retErrno))
        else Resume(SocketExiting(cfg, s, e).(procs := out), e.mem, 0, e)
      else Resume(s.(procs := out), e.mem, 0, e)
  }

  /** The table with an entry for `pid`, a new one if there was none. */
  function Known(procs: seq<Proc>, pid: Pid): (r: seq<Proc>)
    ensures FirstProc(r, pid) < |r|
  {
    if FirstProc(procs, pid) < |procs| then procs
    else
      NewProcFirst(procs, pid);
      procs + [Proc(pid, false, false, 0)]
  }

  lemma {:induction false} NewProcFirst(procs: seq<Proc>, pid: Pid)
    requires FirstProc(procs, pid) == |procs|
    ensures FirstProc(procs + [Proc(pid, false, false, 0)], pid) == |procs|
  {
    var r := procs + [Proc(pid, false, false, 0)];
    var i := FirstProc(r, pid);
    assert forall j :: 0 <= j < |procs| ==> r[j] == procs[j];
    assert r[|procs|].pid == pid;
  }

  /** One turn of the tracer's loop. */
  function HandleStop(cfg: Config, s: State, e: Stop): (r: Result)
    requires cfg.Valid()
  {
    var procs := Known(s.procs, e.child);
    var i := FirstProc(procs, e.child);
    var s1 := s.(procs := procs[i := procs[i].(startup := false)]);
    if procs[i].startup && e.optErrno != 0 then Result(s1, e.mem, Ended(e.optErrno))
    else if !e.status.Stopped? then Result(s1, e.mem, Parked)
    else if e.status.event != 0 || e.status.sig == SIGSTOP then Resume(s1, e.mem, 0, e)
    else if e.status.sig != SIGTRAP && e.siginfo then Resume(s1, e.mem, e.status.sig, e)
    else TraceSyscall(cfg, s1, i, e)
  }

  /** Which stops are taken for what: an event and SIGSTOP resume the process, a signal whose information can be had is
      delivered, and everything else that stops it counts as the entry or the exit of a system call. */
  lemma {:induction false} StopKinds(cfg: Config, s: State, e: Stop)
    requires cfg.Valid() && FirstProc(s.procs, e.child) < |s.procs| && !s.procs[FirstProc(s.procs, e.child)].startup
    ensures var r, i := HandleStop(cfg, s, e), FirstProc(s.procs, e.child);
            match e.status
            case Exited => r == Result(s, e.mem, Parked)
            case Signaled => r == Result(s, e.mem, Parked)
            case Stopped(sig, event) =>
              if event != 0 || sig == 19 || (sig != 5 && e.siginfo) then
                r == Result(s, e.mem, Restart(e, if event == 0 && sig != 19 then sig else 0))
              else r == TraceSyscall(cfg, s, i, e)
  {
    hide TraceSyscall;
    var i := FirstProc(s.procs, e.child);
    assert s.procs[i := s.procs[i].(startup := false)] == s.procs;
  }

  /** The tables after the first process was forked. */
  function Start(child: Pid): (s: State) {
    State([Proc(child, true, false, 0)], [], [], [])
  }

  /** The tables after the stops `es`. */
  function Run(cfg: Config, child: Pid, es: seq<Stop>): (s: State)
    requires cfg.Valid()
  {
    if es == [] then Start(child)
    else HandleStop(cfg, Run(cfg, child, es[..|es| - 1]), es[|es| - 1]).state
  }

  /** How the turn for stop `j` ended. */
  function OutcomeAt(cfg: Config, child: Pid, es: seq<Stop>, j: nat): (o: Outcome)
    requires cfg.Valid() && j < |es|
  {
    HandleStop(cfg, Run(cfg, child, es[..j]), es[j]).outcome
  }
}
