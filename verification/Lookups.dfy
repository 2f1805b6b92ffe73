/** Which keys the socket table holds, told by the calls of the processes alone, for every key and every choice of the
    bucket chains. */
module Lookups {
  import opened Tracer
  import opened Kernel
  import opened Tracking
  import opened Keys

  /** A call for a socket that the tracer notes adds its provisional key, a `close` takes one of its key off, and the end
      of a `socket` swaps a provisional key, if there is one, for that of its result. Nothing here looks at the table. */
  ghost function KeysStep(cfg: Config, k: World, keys: multiset<int>, e: Stop): (r: multiset<int>) {
    var c, p := CallOf(k, e.child), e.child;
    var m := cfg.key(MAGIC_FD, p);
    if !SyscallStop(e) then keys
    else if c.User? && e.regs.nr == SYS_SOCKET && OddInet(e.regs.arg0, e.regs.arg1) then keys + multiset{m}
    else if c.User? && e.regs.nr == SYS_CLOSE then keys - multiset{cfg.key(ToInt(e.regs.arg0), p)}
    else if SocketCall(c) && m in keys then keys - multiset{m} + multiset{cfg.key(e.regs.ret, p)}
    else keys
  }

  ghost function KeysAfter(cfg: Config, child: Pid, es: seq<Stop>): (keys: multiset<int>) {
    if es == [] then multiset{}
    else
      var front := es[..|es| - 1];
      KeysStep(cfg, After(child, front), KeysAfter(cfg, child, front), es[|es| - 1])
  }

  ghost function KeysOf(socks: seq<Sock>): (keys: multiset<int>) {
    if socks == [] then multiset{} else KeysOf(socks[..|socks| - 1]) + multiset{socks[|socks| - 1].key}
  }

  lemma {:induction false} KeysAppend(socks: seq<Sock>, x: Sock)
    ensures KeysOf(socks + [x]) == KeysOf(socks) + multiset{x.key}
  {
    assert (socks + [x])[..|socks|] == socks;
  }

  lemma {:induction false} KeysRemoved(socks: seq<Sock>, i: nat)
    requires i < |socks|
    ensures KeysOf(Removed(socks, i)) + multiset{socks[i].key} == KeysOf(socks)
  {
    var n := |socks| - 1;
    if i == n {
      assert Removed(socks, i) == socks[..n];
    } else {
      assert socks[i + 1..] == socks[..n][i + 1..] + [socks[n]];
      assert Removed(socks, i) == Removed(socks[..n], i) + [socks[n]];
      KeysRemoved(socks[..n], i);
      KeysAppend(Removed(socks[..n], i), socks[n]);
    }
  }

  lemma {:induction false} KeyEntry(socks: seq<Sock>, key: int) returns (i: nat)
    requires key in KeysOf(socks)
    ensures i < |socks| && socks[i].key == key
  {
    var n := |socks| - 1;
    if socks[n].key == key {
      i := n;
    } else {
      i := KeyEntry(socks[..n], key);
    }
  }

  /** A lookup finds an entry exactly when the table has its key, whichever entry the chain shows. */
  lemma {:induction false} FoundIffKey(socks: seq<Sock>, key: int, pick: nat)
    ensures FindSock(socks, key, pick) < |socks| <==> key in KeysOf(socks)
  {
    var i := FindSock(socks, key, pick);
    if i < |socks| {
      KeysRemoved(socks, i);
    }
    if key in KeysOf(socks) {
      var j := KeyEntry(socks, key);
    }
  }

  lemma {:induction false} OneKeyLess(rest: multiset<int>, all: multiset<int>, key: int)
    requires rest + multiset{key} == all
    ensures rest == all - multiset{key}
  {
  }

  lemma {:induction false} NoKeyLess(all: multiset<int>, key: int)
    requires key !in all
    ensures all - multiset{key} == all
  {
  }

  lemma {:induction false} CloseKeys(cfg: Config, s: State, e: Stop)
    ensures KeysOf(ClosePre(cfg, s, e).socks) == KeysOf(s.socks) - multiset{cfg.key(ToInt(e.regs.arg0), e.child)}
  {
    var key := cfg.key(ToInt(e.regs.arg0), e.child);
    var i := FindSock(s.socks, key, e.pick);
    FoundIffKey(s.socks, key, e.pick);
    hide KeysOf, Removed, ToInt;
    if i < |s.socks| {
      KeysRemoved(s.socks, i);
      OneKeyLess(KeysOf(Removed(s.socks, i)), KeysOf(s.socks), key);
    } else {
      NoKeyLess(KeysOf(s.socks), key);
    }
  }

  lemma {:induction false} SocketKeys(cfg: Config, s: State, e: Stop)
    ensures var m, keys := cfg.key(MAGIC_FD, e.child), KeysOf(s.socks);
            KeysOf(SocketExiting(cfg, s, e).socks) ==
              if m in keys then keys - multiset{m} + multiset{cfg.key(e.regs.ret, e.child)} else keys
  {
    var m := cfg.key(MAGIC_FD, e.child);
    var i := FindSock(s.socks, m, e.pick);
    FoundIffKey(s.socks, m, e.pick);
    hide KeysOf, Removed;
    if i < |s.socks| {
      KeysRemoved(s.socks, i);
      OneKeyLess(KeysOf(Removed(s.socks, i)), KeysOf(s.socks), m);
      KeysAppend(Removed(s.socks, i), s.socks[i].(fd := e.regs.ret, key := cfg.key(e.regs.ret, e.child)));
    }
  }

  lemma {:induction false} AskingKeys(cfg: Config, s: State, e: Stop)
    ensures KeysOf(SocketPre(cfg, s, e).socks) ==
              if OddInet(e.regs.arg0, e.regs.arg1) then KeysOf(s.socks) + multiset{cfg.key(MAGIC_FD, e.child)}
              else KeysOf(s.socks)
  {
    KeysAppend(s.socks, Sock(-1, cfg.key(MAGIC_FD, e.child), ToInt(e.regs.arg0), ToInt(e.regs.arg1)));
    hide KeysOf, ToInt, OddInet;
  }

  lemma {:induction false} StepKeys(cfg: Config, s: State, k: World, e: Stop)
    ensures KeysOf(TableAfter(cfg, s, k, e)) == KeysStep(cfg, k, KeysOf(s.socks), e)
  {
    hide KeysOf, ClosePre, SocketExiting, SocketPre, ToInt, OddInet;
    if SyscallStop(e) && CallOf(k, e.child).User? {
      AskingKeys(cfg, s, e);
      CloseKeys(cfg, s, e);
    } else {
      SocketKeys(cfg, s, e);
    }
  }

  /** In every run the keys of the table are those that the calls account for. */
  lemma {:induction false} TableKeys(cfg: Config, child: Pid, es: seq<Stop>)
    requires cfg.Valid() && Legal(child, es)
    ensures KeysOf(Run(cfg, child, es).socks) == KeysAfter(cfg, child, es)
  {
    if es != [] {
      var front, e := es[..|es| - 1], es[|es| - 1];
      var s, k := Run(cfg, child, front), After(child, front);
      TableKeys(cfg, child, front);
      TableFollowsKernel(cfg, child, front);
      assert Run(cfg, child, es) == HandleStop(cfg, s, e).state && Allowed(k, e);
      assert KeysAfter(cfg, child, es) == KeysStep(cfg, k, KeysAfter(cfg, child, front), e);
      hide *;
      TableStep(cfg, s, k, e);
      StepKeys(cfg, s, k, e);
    }
  }

  // ---- The key as it is written ----

  /** The pid and the parity of the number. */
  function Mark(f: Fd, p: Pid): (m: int) {
    p + f % 2 * 0x8000_0000
  }

  /** The same account in parities: the provisional key is the odd one. */
  ghost function MarksStep(k: World, marks: multiset<int>, e: Stop): (r: multiset<int>) {
    var c, p := CallOf(k, e.child), e.child;
    if !SyscallStop(e) then marks
    else if c.User? && e.regs.nr == SYS_SOCKET && OddInet(e.regs.arg0, e.regs.arg1) then marks + multiset{Mark(1, p)}
    else if c.User? && e.regs.nr == SYS_CLOSE then marks - multiset{Mark(ToInt(e.regs.arg0), p)}
    else if SocketCall(c) && Mark(1, p) in marks then marks - multiset{Mark(1, p)} + multiset{Mark(e.regs.ret, p)}
    else marks
  }

  ghost function MarksAfter(child: Pid, es: seq<Stop>): (marks: multiset<int>) {
    if es == [] then multiset{}
    else
      var front := es[..|es| - 1];
      MarksStep(After(child, front), MarksAfter(child, front), es[|es| - 1])
  }

  lemma {:induction false} WrittenMark(cfg: Config, f: Fd, p: Pid)
    requires AsWritten(cfg)
    ensures cfg.key(f, p) == Mark(f, p) && cfg.key(MAGIC_FD, p) == Mark(1, p)
  {
    hide WrittenKey, WrittenMagic;
    WrittenKeyIsParity(f, p);
    WrittenKeyIsParity(MAGIC_FD, p);
    assert MAGIC_FD % 2 == 1;
  }

  lemma {:induction false} WrittenStep(cfg: Config, k: World, keys: multiset<int>, e: Stop)
    requires AsWritten(cfg)
    ensures KeysStep(cfg, k, keys, e) == MarksStep(k, keys, e)
  {
    WrittenMark(cfg, ToInt(e.regs.arg0), e.child);
    WrittenMark(cfg, e.regs.ret, e.child);
    hide AsWritten, Mark, ToInt, OddInet;
  }

  lemma {:induction false} WrittenKeysAfter(cfg: Config, child: Pid, es: seq<Stop>)
    requires AsWritten(cfg)
    ensures KeysAfter(cfg, child, es) == MarksAfter(child, es)
  {
    if es != [] {
      var front := es[..|es| - 1];
      WrittenKeysAfter(cfg, child, front);
      WrittenStep(cfg, After(child, front), KeysAfter(cfg, child, front), es[|es| - 1]);
      hide KeysStep, MarksStep, After;
    }
  }
}
