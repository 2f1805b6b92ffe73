/** How often a handler searches: the count of its tries over whole runs, and what it can still find at the last one. */
module Tries {
  import opened Options
  import opened Lines
  import opened Pairing
  import opened Misdials

  /** After `n` retries of connection `c`, and after its inode was not found if `gone`. */
  ghost predicate Tried(s: Net, c: nat, n: nat, gone: bool) {
    if c >= |s.conns| then n == 0 && !gone
    else
      var h := s.conns[c].handler;
      && n <= 3 && (gone ==> n == 0)
      && (h.Looking? || h.Seen? ==> h.tries == n)
      && (h.Failed? <==> gone || n == 3)
  }

  lemma {:induction false} StepTried(s: Net, t: Step, c: nat, n: nat, gone: bool)
    requires Traced(s) && Enabled(s, t) && Tried(s, c, n, gone)
    ensures Tried(Next(s, t), c, if t == Retry(c) then n + 1 else n, gone || t == NoInode(c))
  {
    hide PrintLines, PrintLine, ParseLine, ReadLine, TaskOf;
    if t.Dial? && t.c == c {
      EntryNamed(s, c);
    }
    hide Traced;
  }

  lemma {:induction false} EntryNamed(s: Net, c: nat)
    requires Traced(s) && c < |s.conns| && Carries(s.conns[c].handler)
    ensures s.conns[c].handler.entry.task.pid != "" && s.conns[c].handler.entry.task.addr != ""
  {
    var e := s.conns[c].handler.entry;
    assert ConnTraced(s, s.conns[c]) && Genuine(s, e) && e.task == TaskOf(s.said[e.from]);
  }

  lemma {:induction false} RunTried(ts: seq<Step>, c: nat)
    requires Possible(ts)
    ensures Tried(Reached(ts), c, multiset(ts)[Retry(c)], NoInode(c) in ts)
  {
    if ts != [] {
      var front, t := ts[..|ts| - 1], ts[|ts| - 1];
      assert ts == front + [t];
      RunTried(front, c);
      AlwaysTraced(front);
      hide Traced, Tried, Next, Enabled;
      StepTried(Reached(front), t, c, multiset(front)[Retry(c)], NoInode(c) in front);
    }
  }

  /** Over every run, a handler has failed if and only if the inode of its connection was not found or it searched three
      times in vain; while it looks it is at the try that its retries so far make it. */
  lemma {:induction false} FailedIffTried(ts: seq<Step>, c: nat)
    requires Possible(ts) && c < |Reached(ts).conns|
    ensures var h, n := Reached(ts).conns[c].handler, multiset(ts)[Retry(c)];
            && (h.Failed? <==> NoInode(c) in ts || n == 3)
            && n <= 3 && (h.Looking? || h.Seen? ==> h.tries == n < 3)
  {
    RunTried(ts, c);
    hide Possible, Reached;
  }

  function Again(c: nat, r: nat): (ts: seq<Step>)
    ensures |ts| == r && forall i :: 0 <= i < r ==> ts[i] == Retry(c)
  {
    seq(r, _ => Retry(c))
  }

  lemma {:induction false} OnceMore(ts: seq<Step>, c: nat, r: nat)
    requires r > 0
    ensures ts + Again(c, r) == ts + Again(c, r - 1) + [Retry(c)]
  {
    assert Again(c, r) == Again(c, r - 1) + [Retry(c)];
  }

  lemma {:induction false} RetryOnce(ts: seq<Step>, c: nat, k: nat)
    requires Possible(ts) && c < |Reached(ts).conns| && Reached(ts).conns[c].handler == Looking(k)
    ensures var s := Reached(ts);
            && Possible(ts + [Retry(c)])
            && Reached(ts + [Retry(c)])
            == s.(conns := s.conns[c := s.conns[c].(handler := if k < 2 then Looking(k + 1) else Failed)])
  {
    hide Possible, Reached;
    Longer(ts, Retry(c));
  }

  /** A handler can search three times and not a fourth time. */
  lemma {:induction false} AfterRetries(ts: seq<Step>, c: nat, r: nat)
    requires Possible(ts) && c < |Reached(ts).conns| && Reached(ts).conns[c].handler == Looking(0) && r <= 3
    ensures var s := Reached(ts);
            && Possible(ts + Again(c, r))
            && Reached(ts + Again(c, r))
            == s.(conns := s.conns[c := s.conns[c].(handler := if r < 3 then Looking(r) else Failed)])
  {
    var s := Reached(ts);
    hide Possible, Reached, Again;
    if r == 0 {
      assert ts + Again(c, r) == ts;
      assert s.conns[c := s.conns[c].(handler := Looking(0))] == s.conns;
    } else {
      OnceMore(ts, c, r);
      AfterRetries(ts, c, r - 1);
      RetryOnce(ts + Again(c, r - 1), c, r - 1);
    }
  }

  lemma {:induction false} StoredDials(ts: seq<Step>, c: nat, e: Entry)
    requires Possible(ts) && c < |Reached(ts).conns| && Reached(ts).conns[c].handler.Looking?
    requires e in Reached(ts).tasks && (e.task.pid, Reached(ts).conns[c].inode) in Reached(ts).holds
    ensures var us := ts + [Store(e)] + [See(c, e.task.pid)] + [Test(c)];
            && Possible(us) && c < |Reached(us).conns| && Reached(us).conns[c].handler == Claimed(e)
  {
    var s := Reached(ts);
    hide Possible, Reached;
    Longer(ts, Store(e));
    Longer(ts + [Store(e)], See(c, e.task.pid));
    Longer(ts + [Store(e)] + [See(c, e.task.pid)], Test(c));
  }

  lemma {:induction false} ClaimedDials(ts: seq<Step>, c: nat, e: Entry)
    requires Possible(ts) && c < |Reached(ts).conns| && Reached(ts).conns[c].handler == Claimed(e)
    ensures var us := ts + [Delete(c)] + [Dial(c)];
            && Possible(us) && c < |Reached(us).conns| && Reached(us).conns[c].handler == Dialed(e)
  {
    AlwaysTraced(ts);
    EntryNamed(Reached(ts), c);
    hide Possible, Reached, Traced;
    Longer(ts, Delete(c));
    Longer(ts + [Delete(c)], Dial(c));
  }

  /** Whatever is stored after one or two searches in vain can still be found, by the next one, and dialed. */
  lemma {:induction false} LateEntryDials(ts: seq<Step>, c: nat, r: nat, e: Entry)
    requires Possible(ts) && c < |Reached(ts).conns| && Reached(ts).conns[c].handler == Looking(0) && r <= 2
    requires e in Reached(ts).tasks && (e.task.pid, Reached(ts).conns[c].inode) in Reached(ts).holds
    ensures var us := ts + Again(c, r) + [Store(e)] + [See(c, e.task.pid)] + [Test(c)] + [Delete(c)] + [Dial(c)];
            && Possible(us) && c < |Reached(us).conns| && Reached(us).conns[c].handler == Dialed(e)
  {
    AfterRetries(ts, c, r);
    hide Possible, Reached, Again;
    StoredDials(ts + Again(c, r), c, e);
    ClaimedDials(ts + Again(c, r) + [Store(e)] + [See(c, e.task.pid)] + [Test(c)], c, e);
  }

  /** An entry of a process that does not hold the inode is passed over. */
  lemma {:induction false} OthersPassedOver(ts: seq<Step>, c: nat, p: string)
    requires Possible(ts) && c < |Reached(ts).conns| && Reached(ts).conns[c].handler.Looking?
    requires p in Reached(ts).table && (p, Reached(ts).conns[c].inode) !in Reached(ts).holds
    ensures Possible(ts + [See(c, p)] + [Test(c)]) && Reached(ts + [See(c, p)] + [Test(c)]) == Reached(ts)
  {
    var s := Reached(ts);
    AlwaysTraced(ts);
    assert s.table[p].task.pid == p;
    hide Possible, Reached, Traced;
    Longer(ts, See(c, p));
    Longer(ts + [See(c, p)], Test(c));
    assert Reached(ts + [See(c, p)] + [Test(c)]).conns == s.conns;
  }

  /** A connection whose inode is not found fails before its first search. */
  lemma {:induction false} NoInodeFails(ts: seq<Step>, c: nat)
    requires Possible(ts) && c < |Reached(ts).conns| && Reached(ts).conns[c].handler == Looking(0)
    ensures Possible(ts + [NoInode(c)])
    ensures var s := Reached(ts);
            Reached(ts + [NoInode(c)]) == s.(conns := s.conns[c := s.conns[c].(handler := Failed)])
  {
    hide Possible, Reached;
    Longer(ts, NoInode(c));
  }
}
