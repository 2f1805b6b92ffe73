/** What the tracer rewrites and announces over a whole run. */
module Announcing {
  import opened Memory
  import opened Lines
  import opened Options
  import opened Tracer
  import opened Kernel
  import opened Tracking
  import opened Addresses

  /** The destination that a stop is redirected from, if the kernel knows it to be the entry of a `connect`. */
  ghost function RedirectAt(cfg: Config, s: State, k: World, e: Stop): (d: Option<Announcement>) {
    if SyscallStop(e) && CallOf(k, e.child).User? && e.regs.nr == SYS_CONNECT then Redirected(cfg, s, e) else None
  }

  /** The handlers at the entry of a call rewrite memory and announce a destination together, or do neither. */
  lemma {:induction false} EnteringLogs(cfg: Config, s: State, e: Stop)
    requires cfg.Valid()
    ensures var (s', m), d := Entering(cfg, s, e), if e.regs.nr == SYS_CONNECT then Redirected(cfg, s, e) else None;
            if d.None? then s'.rewrites == s.rewrites && s'.fifo == s.fifo && m == e.mem
            else
              var w := RewriteOf(cfg, e, d.value);
              && s'.rewrites == s.rewrites + [w] && m == w.after
              && s'.fifo == if w.delivered then s.fifo + [w.dest] else s.fifo
  {
    hide FindSock, Removed, OddInet, Redirected, RewriteOf;
  }

  lemma {:induction false} ExitingLogs(cfg: Config, s: State, e: Stop)
    ensures SocketExiting(cfg, s, e) == s.(socks := SocketExiting(cfg, s, e).socks)
  {
    hide FindSock, Removed;
  }

  /** A stop rewrites memory and announces a destination together, or does neither. */
  lemma {:induction false} LogStep(cfg: Config, s: State, k: World, e: Stop)
    requires cfg.Valid() && Follows(s.procs, k.calls) && Allowed(k, e)
    ensures var r, d := HandleStop(cfg, s, e), RedirectAt(cfg, s, k, e);
            if d.None? then r.state.rewrites == s.rewrites && r.state.fifo == s.fifo && r.mem == e.mem
            else
              var w := RewriteOf(cfg, e, d.value);
              && r.state.rewrites == s.rewrites + [w] && r.mem == w.after
              && r.state.fifo == if w.delivered then s.fifo + [w.dest] else s.fifo
  {
    StopEffect(cfg, s, k, e);
    EnteringLogs(cfg, s, e);
    ExitingLogs(cfg, s, e);
    hide HandleStop, Follows, Allowed, SocketExiting, Entering, Redirected, RewriteOf;
  }

  ghost function Delivered(ws: seq<Rewrite>): (f: seq<Announcement>) {
    if ws == [] then []
    else
      var w := ws[|ws| - 1];
      Delivered(ws[..|ws| - 1]) + if w.delivered then [w.dest] else []
  }

  /** The FIFO holds the destinations of the rewrites whose line could be written, in order. */
  lemma {:induction false} FifoIsRewrites(cfg: Config, child: Pid, es: seq<Stop>)
    requires cfg.Valid() && Legal(child, es)
    ensures Run(cfg, child, es).fifo == Delivered(Run(cfg, child, es).rewrites)
  {
    if es != [] {
      var front, e := es[..|es| - 1], es[|es| - 1];
      var s, k := Run(cfg, child, front), After(child, front);
      FifoIsRewrites(cfg, child, front);
      TableFollowsKernel(cfg, child, front);
      assert Run(cfg, child, es) == HandleStop(cfg, s, e).state && Allowed(k, e);
      hide HandleStop, Follows, RedirectAt, Run, After, Delivered, RewriteOf, Allowed;
      LogStep(cfg, s, k, e);
      if RedirectAt(cfg, s, k, e).Some? {
        DeliveredMore(s.rewrites, RewriteOf(cfg, e, RedirectAt(cfg, s, k, e).value));
      }
    }
  }

  lemma {:induction false} DeliveredMore(ws: seq<Rewrite>, w: Rewrite)
    ensures Delivered(ws + [w]) == if w.delivered then Delivered(ws) + [w.dest] else Delivered(ws)
  {
    assert (ws + [w])[..|ws|] == ws;
  }

  /** Stop `i` is the entry of a call of `pid` for a socket that the tracer notes: of an inet domain, with an odd type. */
  ghost predicate AsksAt(child: Pid, es: seq<Stop>, pid: Pid, i: nat)
    requires i < |es|
  {
    && SyscallStop(es[i]) && es[i].child == pid && CallOf(After(child, es[..i]), pid).User?
    && es[i].regs.nr == SYS_SOCKET && OddInet(es[i].regs.arg0, es[i].regs.arg1)
  }

  ghost predicate Asked(child: Pid, es: seq<Stop>, pid: Pid) {
    exists i {:trigger es[i]} :: 0 <= i < |es| && AsksAt(child, es, pid, i)
  }

  lemma {:induction false} AskedLonger(child: Pid, es: seq<Stop>, n: nat, pid: Pid)
    requires n <= |es| && Asked(child, es[..n], pid)
    ensures Asked(child, es, pid)
  {
    var i :| 0 <= i < n && AsksAt(child, es[..n], pid, i);
    assert es[..n][..i] == es[..i];
    assert AsksAt(child, es, pid, i);
  }

  ghost predicate AllAsked(cfg: Config, child: Pid, es: seq<Stop>, socks: seq<Sock>) {
    forall i {:trigger socks[i]} :: 0 <= i < |socks| ==> Asked(child, es, OwnerOf(cfg, socks[i].key))
  }

  /** Every entry belongs to a process that asked for such a socket. */
  lemma {:induction false} EntriesAsked(cfg: Config, child: Pid, es: seq<Stop>)
    requires cfg.Valid() && Determines(cfg) && Legal(child, es)
    ensures AllAsked(cfg, child, es, Run(cfg, child, es).socks)
  {
    if es != [] {
      var front, e := es[..|es| - 1], es[|es| - 1];
      var s, k := Run(cfg, child, front), After(child, front);
      EntriesAsked(cfg, child, front);
      TableFollowsKernel(cfg, child, front);
      TableStep(cfg, s, k, e);
      var t := TableAfter(cfg, s, k, e);
      assert Run(cfg, child, es).socks == t;
      forall i {:trigger t[i]} | 0 <= i < |t|
        ensures Asked(child, es, OwnerOf(cfg, t[i].key))
      {
        hide OwnerOf, TableAfter;
        OwnerOfEntry(cfg, s, k, e, i);
        var p := OwnerOf(cfg, t[i].key);
        if j :| 0 <= j < |s.socks| && OwnerOf(cfg, s.socks[j].key) == p {
          AskedLonger(child, es, |front|, p);
        } else {
          assert AsksAt(child, es, p, |front|);
        }
      }
    }
  }

  ghost predicate OddInetEntries(socks: seq<Sock>) {
    forall i {:trigger socks[i]} :: 0 <= i < |socks| ==> OddInet(socks[i].domain, socks[i].typ)
  }

  /** Every entry records an inet domain and an odd type. */
  lemma {:induction false} EntriesOddInet(cfg: Config, child: Pid, es: seq<Stop>)
    requires cfg.Valid() && Legal(child, es)
    ensures OddInetEntries(Run(cfg, child, es).socks)
  {
    if es != [] {
      var front, e := es[..|es| - 1], es[|es| - 1];
      var s, k := Run(cfg, child, front), After(child, front);
      EntriesOddInet(cfg, child, front);
      TableFollowsKernel(cfg, child, front);
      TableStep(cfg, s, k, e);
      assert Run(cfg, child, es).socks == TableAfter(cfg, s, k, e);
      hide HandleStop, Run, After, Follows, Legal, Allowed;
      StepOddInet(cfg, s, k, e);
    }
  }

  lemma {:induction false} StepOddInet(cfg: Config, s: State, k: World, e: Stop)
    requires OddInetEntries(s.socks)
    ensures OddInetEntries(TableAfter(cfg, s, k, e))
  {
    hide FindSock;
  }

  /** An entry after a stop belongs to a process that had one before, or to one that asks for a socket here. */
  lemma {:induction false} OwnerOfEntry(cfg: Config, s: State, k: World, e: Stop, i: nat)
    requires Determines(cfg) && i < |TableAfter(cfg, s, k, e)|
    ensures var p := OwnerOf(cfg, TableAfter(cfg, s, k, e)[i].key);
            || (exists j :: 0 <= j < |s.socks| && OwnerOf(cfg, s.socks[j].key) == p)
            || (p == e.child && SyscallStop(e) && CallOf(k, p).User? && e.regs.nr == SYS_SOCKET && OddInet(e.regs.arg0, e.regs.arg1))
  {
    KeyOwner(cfg, MAGIC_FD, e.child);
    KeyOwner(cfg, e.regs.ret, e.child);
    hide OwnerOf, Determines, ToInt, OddInet;
    var t := TableAfter(cfg, s, k, e);
    var m := FindSock(s.socks, cfg.key(MAGIC_FD, e.child), e.pick);
    var n := FindSock(s.socks, cfg.key(ToInt(e.regs.arg0), e.child), e.pick);
    assert t[i] in s.socks || t[i].key == cfg.key(MAGIC_FD, e.child) ||
           (m < |s.socks| && t[i].key == cfg.key(e.regs.ret, e.child) && s.socks[m].key == cfg.key(MAGIC_FD, e.child));
    if t[i] in s.socks {
      var j :| 0 <= j < |s.socks| && s.socks[j] == t[i];
    }
  }

  /** Stop `j` is the entry of a `connect` that was rewritten as `w` says: the destination was read from the memory
      before, it is not one to ignore, the proxy's address of the same family was written over it, and the process
      had asked for a socket of an inet domain with an odd type before. */
  ghost predicate MadeAt(cfg: Config, child: Pid, es: seq<Stop>, w: Rewrite, j: nat)
    requires cfg.Valid() && j < |es|
  {
    var e := es[j];
    && SyscallStop(e) && CallOf(After(child, es[..j]), e.child).User? && e.regs.nr == SYS_CONNECT
    && w.pid == e.child && w.fd == ToInt(e.regs.arg0) && w.addr == e.regs.arg1 && w.before == e.mem && w.delivered == e.writeOk
    && Destination(cfg, w.before, w.addr, w.pid) == Some(w.dest) && !cfg.ignore(w.dest.ip)
    && w.after == Written(w.before, w.addr, ProxyFor(cfg, w.before, w.addr), cfg.junk)
    && Asked(child, es[..j], w.pid)
  }

  lemma {:induction false} MadeLonger(cfg: Config, child: Pid, es: seq<Stop>, n: nat, w: Rewrite, j: nat)
    requires cfg.Valid() && j < n <= |es| && MadeAt(cfg, child, es[..n], w, j)
    ensures MadeAt(cfg, child, es, w, j)
  {
    hide Destination, ProxyFor, Asked;
    assert es[..n][..j] == es[..j] && es[..n][j] == es[j];
  }

  lemma {:induction false} MadeHere(cfg: Config, child: Pid, es: seq<Stop>)
    requires cfg.Valid() && Determines(cfg) && Legal(child, es) && es != []
    requires var s, k := Run(cfg, child, es[..|es| - 1]), After(child, es[..|es| - 1]);
             RedirectAt(cfg, s, k, es[|es| - 1]).Some?
    ensures var d := RedirectAt(cfg, Run(cfg, child, es[..|es| - 1]), After(child, es[..|es| - 1]), es[|es| - 1]).value;
            MadeAt(cfg, child, es, RewriteOf(cfg, es[|es| - 1], d), |es| - 1)
  {
    hide Destination, ProxyFor, Asked, ToInt, OwnerOf, Determines;
    var front, e := es[..|es| - 1], es[|es| - 1];
    var s := Run(cfg, child, front);
    EntriesAsked(cfg, child, front);
    KeyOwner(cfg, ToInt(e.regs.arg0), e.child);
    var i := FindSock(s.socks, cfg.key(ToInt(e.regs.arg0), e.child), e.pick);
    assert Asked(child, front, OwnerOf(cfg, s.socks[i].key));
  }

  /** The stops of a run at which a rewrite was made. */
  ghost function Makers(cfg: Config, child: Pid, es: seq<Stop>): (js: seq<nat>)
    requires cfg.Valid()
  {
    if es == [] then []
    else
      var front, e := es[..|es| - 1], es[|es| - 1];
      Makers(cfg, child, front) +
        if RedirectAt(cfg, Run(cfg, child, front), After(child, front), e).Some? then [|es| - 1] else []
  }

  /** The rewrites `ws` were made at the stops `js`, in order. */
  ghost predicate Matched(cfg: Config, child: Pid, es: seq<Stop>, ws: seq<Rewrite>, js: seq<nat>)
    requires cfg.Valid()
  {
    && |js| == |ws|
    && (forall n {:trigger js[n]} :: 0 <= n < |js| ==> js[n] < |es| && MadeAt(cfg, child, es, ws[n], js[n]))
    && (forall m, n {:trigger js[m], js[n]} :: 0 <= m < n < |js| ==> js[m] < js[n])
  }

  lemma {:induction false} MatchedLonger(cfg: Config, child: Pid, es: seq<Stop>, ws: seq<Rewrite>, js: seq<nat>)
    requires cfg.Valid() && es != [] && Matched(cfg, child, es[..|es| - 1], ws, js)
    ensures Matched(cfg, child, es, ws, js) && forall n {:trigger js[n]} :: 0 <= n < |js| ==> js[n] < |es| - 1
  {
    hide MadeAt;
    forall n {:trigger js[n]} | 0 <= n < |js|
      ensures js[n] < |es| && MadeAt(cfg, child, es, ws[n], js[n])
    {
      MadeLonger(cfg, child, es, |es| - 1, ws[n], js[n]);
    }
  }

  lemma {:induction false} MatchedMore(cfg: Config, child: Pid, es: seq<Stop>, ws: seq<Rewrite>, js: seq<nat>,
                                       w: Rewrite, j: nat)
    requires cfg.Valid() && j < |es| && MadeAt(cfg, child, es, w, j)
    requires Matched(cfg, child, es, ws, js) && forall n {:trigger js[n]} :: 0 <= n < |js| ==> js[n] < j
    ensures Matched(cfg, child, es, ws + [w], js + [j])
  {
    hide MadeAt;
  }

  /** The rewrites of a run correspond one to one and in order to its stops at the entry of a `connect` that was
      redirected, with any key that tells processes apart. */
  lemma {:induction false} RewritesAreConnects(cfg: Config, child: Pid, es: seq<Stop>)
    requires cfg.Valid() && Determines(cfg) && Legal(child, es)
    ensures Matched(cfg, child, es, Run(cfg, child, es).rewrites, Makers(cfg, child, es))
  {
    if es != [] {
      var front, e := es[..|es| - 1], es[|es| - 1];
      var s, k := Run(cfg, child, front), After(child, front);
      RewritesAreConnects(cfg, child, front);
      TableFollowsKernel(cfg, child, front);
      var d, js := RedirectAt(cfg, s, k, e), Makers(cfg, child, front);
      assert Run(cfg, child, es) == HandleStop(cfg, s, e).state && Allowed(k, e);
      assert Makers(cfg, child, es) == js + if d.Some? then [|front|] else [];
      hide Matched, MadeAt, HandleStop, RedirectAt, Follows, RewriteOf, Run, After, Allowed, Determines, Makers, Legal;
      LogStep(cfg, s, k, e);
      MatchedLonger(cfg, child, es, s.rewrites, js);
      if d.Some? {
        MadeHere(cfg, child, es);
        MatchedMore(cfg, child, es, s.rewrites, js, RewriteOf(cfg, e, d.value), |front|);
      }
    }
  }

  /** Where the words of the address can be transferred, the process then connects to the proxy, at its address of the
      family that the process asked for. */
  lemma {:induction false} RewrittenNamesProxy(cfg: Config, child: Pid, es: seq<Stop>, w: Rewrite, j: nat,
                                               ip: Bytes, ip6: Bytes, hi: bv8, lo: bv8, flow: Bytes, scope: Bytes)
    requires cfg.Valid() && j < |es| && MadeAt(cfg, child, es, w, j)
    requires |ip| == 4 && |ip6| == 16 && |flow| == |scope| == 4
    requires cfg.proxy4 == Inet(ip, hi, lo) && cfg.proxy6 == Inet6(ip6, hi, lo, flow, scope)
    requires AllMapped(w.before, w.addr, if Family(w.before, w.addr) == AF_INET then 16 else 28)
    ensures Family(w.before, w.addr) == AF_INET ==>
              Destination(cfg, w.after, w.addr, w.pid) == Some(Announcement(cfg.ntoa(ip), 256 * hi as nat + lo as nat, w.pid))
    ensures Family(w.before, w.addr) == AF_INET6 ==>
              Destination(cfg, w.after, w.addr, w.pid) == Some(Announcement(cfg.ntop(ip6), 256 * hi as nat + lo as nat, w.pid))
    ensures Family(w.after, w.addr) == Family(w.before, w.addr)
    ensures Family(w.before, w.addr) == AF_INET || Family(w.before, w.addr) == AF_INET6
  {
    assert Family(w.before, w.addr) == AF_INET || Family(w.before, w.addr) == AF_INET6;
    hide Destination, Family, Written, Read, Asked, ToInt, After, Inet, Inet6;
    RoundTrip(w.before, w.addr, ProxyFor(cfg, w.before, w.addr), cfg.junk);
    if Family(w.before, w.addr) == AF_INET {
      InetRead(cfg, w.after, w.addr, w.pid, ip, hi, lo);
    } else {
      Inet6Read(cfg, w.after, w.addr, w.pid, ip6, hi, lo, flow, scope);
    }
  }

  /** The text forms of addresses are single lines. */
  ghost predicate OneLine(cfg: Config) {
    (forall b :: '\n' !in cfg.ntoa(b)) && (forall b :: '\n' !in cfg.ntop(b))
  }

  lemma {:induction false} MadeOneLine(cfg: Config, child: Pid, es: seq<Stop>, w: Rewrite, j: nat)
    requires cfg.Valid() && OneLine(cfg) && j < |es| && MadeAt(cfg, child, es, w, j)
    ensures '\n' !in w.dest.ip
  {
    hide Asked, Written, Read, Family, ToInt, After, ProxyFor;
  }

  /** Whatever the tracer has written, the reader at the other end of the FIFO starts exactly the store tasks for it. */
  lemma {:induction false} FifoParses(cfg: Config, child: Pid, es: seq<Stop>)
    requires cfg.Valid() && Determines(cfg) && OneLine(cfg) && Legal(child, es)
    ensures Tasks(PrintLines(Run(cfg, child, es).fifo)) == TasksOf(Delivered(Run(cfg, child, es).rewrites))
  {
    hide Determines, OneLine, MadeAt, Run, Tasks, PrintLines, TasksOf, Delivered, Makers, Legal;
    var ws, js := Run(cfg, child, es).rewrites, Makers(cfg, child, es);
    FifoIsRewrites(cfg, child, es);
    RewritesAreConnects(cfg, child, es);
    forall n | 0 <= n < |ws|
      ensures '\n' !in ws[n].dest.ip
    {
      MadeOneLine(cfg, child, es, ws[n], js[n]);
    }
    DeliveredClean(ws);
    PrintedStreamParses(Delivered(ws));
  }

  lemma {:induction false} DeliveredClean(ws: seq<Rewrite>)
    requires forall n :: 0 <= n < |ws| ==> '\n' !in ws[n].dest.ip
    ensures forall a :: a in Delivered(ws) ==> '\n' !in a.ip
  {
    if ws != [] {
      DeliveredClean(ws[..|ws| - 1]);
    }
  }
}
