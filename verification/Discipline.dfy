/** Under the discipline that a process announces again only after its last announcement was claimed and deleted, and
    that every inode is held by one announcing process, a connection is dialed to its own destination. */
module Discipline {
  import opened Options
  import opened Text
  import opened Lines
  import opened Pairing

  ghost function PidOf(s: Net, k: nat): (pid: string)
    requires k < |s.said|
  {
    TaskOf(s.said[k]).pid
  }

  /** The places where announcement `k` can still be found. */
  ghost predicate InTasks(s: Net, k: nat) {
    exists e {:trigger e in s.tasks} :: e in s.tasks && e.from == k
  }

  ghost predicate InTable(s: Net, k: nat) {
    exists p {:trigger p in s.table} :: p in s.table && s.table[p].from == k
  }

  ghost predicate InClaim(s: Net, k: nat) {
    exists c {:trigger s.conns[c]} :: 0 <= c < |s.conns| && s.conns[c].handler.Claimed? && s.conns[c].handler.entry.from == k
  }

  ghost predicate Out(s: Net, k: nat) {
    k in s.queue || InTasks(s, k) || InTable(s, k) || InClaim(s, k)
  }

  predicate Past(h: Handler) {
    h.Deleted? || h.Dialed?
  }

  /** Announcement `k` was claimed, by the handler of its own connection, and deleted. */
  ghost predicate Finished(s: Net, k: nat) {
    exists c {:trigger s.conns[c]} :: 0 <= c < |s.conns| && s.conns[c].ask == Some(k) && Past(s.conns[c].handler)
  }

  ghost predicate Last(s: Net, k: nat)
    requires k < |s.said|
  {
    forall m {:trigger PidOf(s, m)} :: k < m < |s.said| ==> PidOf(s, m) != PidOf(s, k)
  }

  // ---- One copy of every announcement ----

  ghost predicate LeftQueue(s: Net, k: nat) {
    k !in s.queue && !InTasks(s, k)
  }

  /** An announcement is in one place at a time, and never comes back once it was deleted. */
  ghost predicate Placed(s: Net) {
    && (forall i, j {:trigger s.queue[i], s.queue[j]} :: 0 <= i < j < |s.queue| ==> s.queue[i] != s.queue[j])
    && (forall e {:trigger e in s.tasks} :: e in s.tasks ==> e.from !in s.queue)
    && (forall p {:trigger p in s.table} :: p in s.table ==> LeftQueue(s, s.table[p].from))
    && (forall c {:trigger s.conns[c]} :: 0 <= c < |s.conns| ==> ConnPlaced(s, s.conns[c]))
  }

  ghost predicate ConnPlaced(s: Net, x: Conn) {
    && (Carries(x.handler) ==> LeftQueue(s, x.handler.entry.from))
    && (Past(x.handler) ==> !InTable(s, x.handler.entry.from))
  }

  lemma {:induction false} AnnouncePlaced(s: Net, a: Announcement)
    requires Traced(s) && Placed(s) && Enabled(s, Announce(a))
    ensures Placed(Next(s, Announce(a)))
  {
    hide PrintLines, TaskOf, PrintLine;
    var s', n := Next(s, Announce(a)), |s.said|;
    assert forall k :: InTasks(s', k) <==> InTasks(s, k);
    assert forall k :: InTable(s', k) <==> InTable(s, k);
    forall c {:trigger s'.conns[c]} | 0 <= c < |s'.conns|
      ensures ConnPlaced(s', s'.conns[c])
    {
      assert ConnTraced(s, s.conns[c]) && ConnPlaced(s, s.conns[c]);
    }
  }

  lemma {:induction false} ParsePlaced(s: Net)
    requires Traced(s) && Placed(s) && s.queue != []
    ensures Placed(Next(s, Parse))
  {
    hide PrintLines, TaskOf;
    ParseTraced(s);
    hide Next, Traced;
    var s', n := Next(s, Parse), s.queue[0];
    assert forall k :: InTasks(s', k) ==> InTasks(s, k) || k == n;
    assert forall k :: InTable(s', k) <==> InTable(s, k);
    assert forall k :: k in s'.queue ==> k in s.queue;
    assert n in s.queue && n !in s'.queue;
    forall c {:trigger s'.conns[c]} | 0 <= c < |s'.conns|
      ensures ConnPlaced(s', s'.conns[c])
    {
      assert ConnPlaced(s, s.conns[c]);
    }
  }

  lemma {:induction false} StorePlaced(s: Net, e: Entry)
    requires Traced(s) && Placed(s) && e in s.tasks
    ensures Placed(Next(s, Store(e)))
  {
    hide PrintLines, TaskOf;
    var s' := Next(s, Store(e));
    assert forall k :: InTasks(s', k) ==> InTasks(s, k);
    assert forall k :: InTable(s', k) ==> InTable(s, k) || k == e.from;
    assert InTasks(s, e.from);
    assert !InTasks(s', e.from) by {
      forall d {:trigger d in s'.tasks} | d in s'.tasks
        ensures d.from != e.from
      {
        assert d in s.tasks && Genuine(s, d) && Genuine(s, e);
      }
    }
    forall c {:trigger s'.conns[c]} | 0 <= c < |s'.conns|
      ensures ConnPlaced(s', s'.conns[c])
    {
      assert ConnPlaced(s, s.conns[c]);
    }
  }

  /** A change of one handler, with no more in the map than before. */
  lemma {:induction false} ChangePlaced(s: Net, s': Net, c: nat)
    requires Placed(s) && c < |s.conns| == |s'.conns| && s'.queue == s.queue && s'.tasks == s.tasks
    requires forall d {:trigger s'.conns[d]} :: 0 <= d < |s.conns| && d != c ==> s'.conns[d] == s.conns[d]
    requires forall p {:trigger p in s'.table} :: p in s'.table ==> p in s.table && s'.table[p] == s.table[p]
    requires ConnPlaced(s', s'.conns[c])
    ensures Placed(s')
  {
    assert forall k {:trigger InTasks(s', k)} :: InTasks(s', k) <==> InTasks(s, k);
    assert forall k {:trigger InTable(s', k)} :: InTable(s', k) ==> InTable(s, k);
    hide InTasks, InTable;
    forall d {:trigger s'.conns[d]} | 0 <= d < |s'.conns|
      ensures ConnPlaced(s', s'.conns[d])
    {
      assert d != c ==> ConnPlaced(s, s.conns[d]);
    }
  }

  lemma {:induction false} DeletePlaced(s: Net, c: nat)
    requires Traced(s) && Placed(s) && Enabled(s, Delete(c))
    ensures Placed(Next(s, Delete(c)))
  {
    hide PrintLines, TaskOf;
    var s', e := Next(s, Delete(c)), s.conns[c].handler.entry;
    assert ConnTraced(s, s.conns[c]) && ConnPlaced(s, s.conns[c]);
    forall p {:trigger p in s'.table} | p in s'.table
      ensures s'.table[p].from != e.from
    {
      assert Genuine(s, s.table[p]) && s.table[p].task.pid == p && Genuine(s, e);
    }
    assert !InTable(s', e.from);
    assert InTasks(s', e.from) <==> InTasks(s, e.from);
    hide Traced, Placed, InTable, InTasks;
    ChangePlaced(s, s', c);
  }

  lemma {:induction false} HandlerPlaced(s: Net, t: Step)
    requires Traced(s) && Placed(s) && Enabled(s, t) && OfHandler(t)
    ensures Placed(Next(s, t))
  {
    hide Traced;
    if t.Delete? {
      DeletePlaced(s, t.c);
    } else {
      var s' := Next(s, t);
      assert ConnPlaced(s, s.conns[t.c]);
      assert t.See? ==> LeftQueue(s, s.table[t.pid].from);
      assert forall k {:trigger InTasks(s', k)} :: InTasks(s', k) <==> InTasks(s, k);
      assert forall k {:trigger InTable(s', k)} :: InTable(s', k) <==> InTable(s, k);
      hide Placed, InTable, InTasks;
      ChangePlaced(s, s', t.c);
    }
  }

  lemma {:induction false} StepPlaced(s: Net, t: Step)
    requires Traced(s) && Placed(s) && Enabled(s, t)
    ensures Placed(Next(s, t))
  {
    if OfHandler(t) {
      HandlerPlaced(s, t);
    } else if t.Announce? {
      AnnouncePlaced(s, t.a);
    } else if t.Parse? {
      ParsePlaced(s);
    } else if t.Store? {
      StorePlaced(s, t.entry);
    } else {
      hide PrintLines, TaskOf, Traced;
      var s' := Next(s, t);
      assert forall k :: InTasks(s', k) <==> InTasks(s, k);
      assert forall k :: InTable(s', k) <==> InTable(s, k);
    }
  }

  // ---- The discipline ----

  /** The handler still looks for an entry. */
  predicate Searching(h: Handler) {
    h.Looking? || h.Seen?
  }

  /** While a handler looks for an entry, no announcing process other than the one that announced its connection holds
      the inode. */
  ghost predicate OneHolder(s: Net) {
    forall c, k {:trigger s.conns[c], PidOf(s, k)} ::
      0 <= c < |s.conns| && Searching(s.conns[c].handler)
      && 0 <= k < |s.said| && (PidOf(s, k), s.conns[c].inode) in s.holds ==>
        s.conns[c].ask.Some? && s.conns[c].ask.value < |s.said| && PidOf(s, s.conns[c].ask.value) == PidOf(s, k)
  }

  /** A process announces only when its last announcement was claimed and deleted. */
  ghost predicate InTurn(s: Net, t: Step) {
    t.Announce? ==>
      forall k {:trigger s.said[k]} :: 0 <= k < |s.said| && PidOf(s, k) == TaskOf(t.a).pid && Last(s, k) ==> Finished(s, k)
  }

  ghost predicate Behaved(ts: seq<Step>)
    requires Possible(ts)
  {
    ts == [] || (Behaved(ts[..|ts| - 1]) && InTurn(Reached(ts[..|ts| - 1]), ts[|ts| - 1]) && OneHolder(Reached(ts)))
  }

  /** The handler `x` claims, deletes and dials nothing but its own announcement, and is shown nothing else by the
      process that made it. */
  ghost predicate OwnEntry(s: Net, x: Conn) {
    && (Carries(x.handler) && !x.handler.Seen? ==> x.ask == Some(x.handler.entry.from))
    && (x.handler.Seen? && x.ask.Some? && x.ask.value < |s.said| && PidOf(s, x.ask.value) == x.handler.entry.task.pid ==>
          x.handler.entry.from == x.ask.value)
  }

  ghost predicate Asks(s: Net) {
    forall c, d {:trigger s.conns[c], s.conns[d]} ::
      0 <= c < d < |s.conns| && s.conns[c].ask.Some? ==> s.conns[c].ask != s.conns[d].ask
  }

  /** Every announcement is somewhere on its way or finished; on its way are only the last ones of their processes. */
  ghost predicate Orderly(s: Net) {
    && (forall k {:trigger s.said[k]} {:trigger Out(s, k)} {:trigger Finished(s, k)} ::
          0 <= k < |s.said| ==> (Out(s, k) || Finished(s, k)) && (Out(s, k) ==> Last(s, k)))
    && (forall c {:trigger s.conns[c]} :: 0 <= c < |s.conns| ==> OwnEntry(s, s.conns[c]))
    && Asks(s)
  }

  lemma {:induction false} FinishedGone(s: Net, k: nat)
    requires Placed(s) && Orderly(s) && k < |s.said| && Finished(s, k)
    ensures !Out(s, k)
  {
    hide Last;
    var c :| 0 <= c < |s.conns| && s.conns[c].ask == Some(k) && Past(s.conns[c].handler);
    assert OwnEntry(s, s.conns[c]) && ConnPlaced(s, s.conns[c]);
    hide PidOf, Out, InTasks, InTable, Placed;
    forall d {:trigger s.conns[d]} | 0 <= d < |s.conns| && s.conns[d].handler.Claimed?
      ensures s.conns[d].handler.entry.from != k
    {
      assert OwnEntry(s, s.conns[d]) && d != c;
      assert s.conns[d].ask != s.conns[c].ask;
    }
    assert !InClaim(s, k);
    hide InClaim, Orderly, Asks, OwnEntry, Finished;
    NotOut(s, k);
  }

  lemma {:induction false} NotOut(s: Net, k: nat)
    requires LeftQueue(s, k) && !InTable(s, k) && !InClaim(s, k)
    ensures !Out(s, k)
  {
  }

  /** Steps that leave the announcements where they are. */
  ghost predicate Stays(s: Net, s': Net, k: nat) {
    (Out(s', k) <==> Out(s, k)) && (Finished(s', k) <==> Finished(s, k))
  }

  lemma {:induction false} AnnounceStays(s: Net, a: Announcement, k: nat)
    requires Enabled(s, Announce(a)) && k < |s.said|
    ensures Stays(s, Next(s, Announce(a)), k)
  {
    hide PrintLine;
    var s' := Next(s, Announce(a));
    assert InTasks(s', k) <==> InTasks(s, k);
    assert InTable(s', k) <==> InTable(s, k);
    assert InClaim(s', k) <==> InClaim(s, k);
    assert Finished(s', k) <==> Finished(s, k);
    assert k in s'.queue <==> k in s.queue;
  }

  lemma {:induction false} AnnounceLast(s: Net, a: Announcement, k: nat)
    requires Placed(s) && Orderly(s) && Enabled(s, Announce(a)) && InTurn(s, Announce(a)) && k < |s.said| && Out(s, k)
    ensures Last(Next(s, Announce(a)), k)
  {
    if Finished(s, k) {
      FinishedGone(s, k);
    }
    hide TaskOf, Out, Finished, Placed, PrintLine;
    var s' := Next(s, Announce(a));
    assert Last(s, k);
    assert PidOf(s, k) != TaskOf(a).pid;
    hide InTurn, Orderly, Asks;
    assert s'.said[k] == s.said[k];
    forall m {:trigger PidOf(s', m)} | k < m < |s'.said|
      ensures PidOf(s', m) != PidOf(s', k)
    {
      assert m < |s.said| ==> PidOf(s, m) != PidOf(s, k);
    }
  }

  lemma {:induction false} AnnounceOrderly(s: Net, a: Announcement)
    requires Traced(s) && Placed(s) && Orderly(s) && Enabled(s, Announce(a)) && InTurn(s, Announce(a))
    ensures Orderly(Next(s, Announce(a)))
  {
    hide PrintLine, PrintLines, TaskOf;
    var s', n := Next(s, Announce(a)), |s.said|;
    assert s'.queue[|s.queue|] == n;
    assert Out(s', n) && Last(s', n);
    hide Out, Finished, Last, Placed;
    forall k {:trigger Out(s', k)} | 0 <= k < |s'.said|
      ensures (Out(s', k) || Finished(s', k)) && (Out(s', k) ==> Last(s', k))
    {
      if k < n {
        assert s.said[k] == s'.said[k];
        AnnounceStays(s, a, k);
        if Out(s, k) {
          AnnounceLast(s, a, k);
        }
      }
    }
    forall c {:trigger s'.conns[c]} | 0 <= c < |s'.conns|
      ensures OwnEntry(s', s'.conns[c])
    {
      assert OwnEntry(s, s.conns[c]) && ConnTraced(s, s.conns[c]);
    }
  }

  /** Nothing goes out anew, and what is no longer on its way is finished. */
  ghost predicate Settles(s: Net, s': Net) {
    forall k {:trigger Out(s', k)} {:trigger Out(s, k)} {:trigger Finished(s, k)} {:trigger Finished(s', k)} ::
      0 <= k < |s.said| ==>
      (Out(s', k) ==> Out(s, k)) && (Out(s, k) ==> Out(s', k) || Finished(s', k)) && (Finished(s, k) ==> Finished(s', k))
  }

  lemma {:induction false} StayOrderly(s: Net, s': Net)
    requires Orderly(s) && s'.said == s.said && Settles(s, s') && Asks(s')
    requires forall c {:trigger s'.conns[c]} :: 0 <= c < |s'.conns| ==> OwnEntry(s', s'.conns[c])
    ensures Orderly(s')
  {
    hide Out, Finished, OwnEntry, Asks, TaskOf;
    forall k {:trigger Out(s', k)} {:trigger Finished(s', k)} | 0 <= k < |s'.said|
      ensures (Out(s', k) || Finished(s', k)) && (Out(s', k) ==> Last(s', k))
    {
      assert Out(s', k) ==> Out(s, k);
      assert Out(s, k) || Finished(s, k);
      LastSame(s, s', k);
    }
  }

  lemma {:induction false} LastSame(s: Net, s': Net, k: nat)
    requires s'.said == s.said && k < |s.said|
    ensures Last(s', k) <==> Last(s, k)
  {
    assert forall m :: 0 <= m < |s.said| ==> PidOf(s', m) == PidOf(s, m);
  }

  lemma {:induction false} OwnSame(s: Net, s': Net, x: Conn)
    requires s'.said == s.said && OwnEntry(s, x)
    ensures OwnEntry(s', x)
  {
  }

  /** A step that leaves the connections and the announcements and only moves an announcement on. */
  lemma {:induction false} MovedOrderly(s: Net, s': Net)
    requires Orderly(s) && s'.said == s.said && s'.conns == s.conns
    requires forall k {:trigger Out(s', k)} {:trigger Out(s, k)} :: 0 <= k < |s.said| ==> (Out(s', k) <==> Out(s, k))
    ensures Orderly(s')
  {
    hide Out, Last;
    assert forall k :: Finished(s', k) <==> Finished(s, k);
    hide Finished;
    forall c {:trigger s'.conns[c]} | 0 <= c < |s'.conns|
      ensures OwnEntry(s', s'.conns[c])
    {
      OwnSame(s, s', s.conns[c]);
    }
    hide OwnEntry;
    StayOrderly(s, s');
  }

  lemma {:induction false} ParseOrderly(s: Net)
    requires Traced(s) && Orderly(s) && s.queue != []
    ensures Orderly(Next(s, Parse))
  {
    hide PrintLines, TaskOf, Orderly;
    ParseTraced(s);
    hide Next, Traced;
    var s', n := Next(s, Parse), s.queue[0];
    var e := Entry(TaskOf(s.said[n]), n);
    forall k {:trigger Out(s', k)} {:trigger Out(s, k)} | 0 <= k < |s.said|
      ensures Out(s', k) <==> Out(s, k)
    {
      assert e in s'.tasks;
      assert InTasks(s', k) <==> InTasks(s, k) || k == n;
      assert InTable(s', k) <==> InTable(s, k);
      assert InClaim(s', k) <==> InClaim(s, k);
      assert k in s.queue <==> k in s'.queue || k == n;
    }
    hide Out, InTasks, InTable, InClaim;
    MovedOrderly(s, s');
  }

  /** Two announcements of one process that are both on their way are the same one. */
  lemma {:induction false} OneOut(s: Net, k: nat, m: nat)
    requires Orderly(s) && k < |s.said| && m < |s.said| && Out(s, k) && Out(s, m) && PidOf(s, k) == PidOf(s, m)
    ensures k == m
  {
    hide Out, Finished, OwnEntry, Asks, TaskOf;
    assert Last(s, k) && Last(s, m);
  }

  lemma {:induction false} StoreOrderly(s: Net, e: Entry)
    requires Traced(s) && Orderly(s) && e in s.tasks
    ensures Orderly(Next(s, Store(e)))
  {
    var s', p := Next(s, Store(e)), e.task.pid;
    assert Genuine(s, e) && forall d {:trigger d in s.tasks} :: d in s.tasks ==> Genuine(s, d);
    assert p in s.table ==> Genuine(s, s.table[p]) && s.table[p].task.pid == p;
    assert InTasks(s, e.from) && (p in s.table ==> InTable(s, s.table[p].from));
    if p in s.table {
      OneOut(s, e.from, s.table[p].from);
    }
    hide PrintLines, TaskOf, Orderly, Traced;
    forall k {:trigger Out(s', k)} {:trigger Out(s, k)} | 0 <= k < |s.said|
      ensures Out(s', k) <==> Out(s, k)
    {
      StoreMoves(s, e, k);
    }
    hide Out, InTasks, InTable, InClaim;
    MovedOrderly(s, s');
  }

  lemma {:induction false} StoreMoves(s: Net, e: Entry, k: nat)
    requires e in s.tasks && (forall d {:trigger d in s.tasks} :: d in s.tasks && d.from == e.from ==> d == e)
    requires e.task.pid in s.table ==> s.table[e.task.pid].from == e.from
    ensures Out(Next(s, Store(e)), k) <==> Out(s, k)
  {
    var s', p := Next(s, Store(e)), e.task.pid;
    assert p in s'.table && s'.table[p] == e;
    if InTable(s, k) {
      var q :| q in s.table && s.table[q].from == k;
      assert q in s'.table && s'.table[q].from == k;
    }
    if InTasks(s, k) && k != e.from {
      var d :| d in s.tasks && d.from == k;
      assert d in s'.tasks;
    }
    assert InClaim(s', k) <==> InClaim(s, k);
    assert InTasks(s', k) ==> InTasks(s, k);
    assert InTable(s', k) ==> InTable(s, k) || k == e.from;
    assert InTasks(s, e.from);
  }

  lemma {:induction false} AcceptOrderly(s: Net, inode: string, ask: Option<nat>)
    requires Orderly(s) && Enabled(s, Accept(inode, ask))
    ensures Orderly(Next(s, Accept(inode, ask)))
  {
    var s' := Next(s, Accept(inode, ask));
    hide TaskOf, Last;
    assert forall c :: 0 <= c < |s.conns| ==> s'.conns[c] == s.conns[c];
    forall k {:trigger Out(s', k)} {:trigger Out(s, k)} {:trigger Finished(s, k)} {:trigger Finished(s', k)}
      ensures Stays(s, s', k)
    {
      assert InTasks(s', k) <==> InTasks(s, k);
      assert InTable(s', k) <==> InTable(s, k);
      assert InClaim(s', k) <==> InClaim(s, k);
      assert Finished(s', k) <==> Finished(s, k);
    }
    hide Out, Finished;
    assert forall k :: Stays(s, s', k);
    forall c {:trigger s'.conns[c]} | 0 <= c < |s'.conns|
      ensures OwnEntry(s', s'.conns[c])
    {
      if c < |s.conns| {
        OwnSame(s, s', s.conns[c]);
      }
    }
    StayOrderly(s, s');
  }

  lemma {:induction false} HoldOrderly(s: Net, t: Step)
    requires Orderly(s) && Enabled(s, t) && (t.Hold? || t.Release?)
    ensures Orderly(Next(s, t))
  {
    var s' := Next(s, t);
    hide TaskOf, Orderly;
    forall k {:trigger Out(s', k)} {:trigger Out(s, k)} | 0 <= k < |s.said|
      ensures Out(s', k) <==> Out(s, k)
    {
      assert InTasks(s', k) <==> InTasks(s, k);
      assert InTable(s', k) <==> InTable(s, k);
      assert InClaim(s', k) <==> InClaim(s, k);
    }
    hide Out;
    MovedOrderly(s, s');
  }

  /** While the handler of a connection has not deleted an entry, the announcement of that connection is on its way. */
  lemma {:induction false} OwnIsOut(s: Net, c: nat)
    requires Orderly(s) && c < |s.conns| && s.conns[c].ask.Some? && s.conns[c].ask.value < |s.said| && !Past(s.conns[c].handler)
    ensures Out(s, s.conns[c].ask.value)
  {
    hide Out, Last, OwnEntry, TaskOf;
    var k := s.conns[c].ask.value;
    assert !Finished(s, k);
  }

  /** A new handler state that claims nothing and finishes nothing. */
  lemma {:induction false} HandlerOrderly(s: Net, c: nat, h: Handler)
    requires Orderly(s) && c < |s.conns| && OwnEntry(s, s.conns[c].(handler := h))
    requires Past(h) <==> Past(s.conns[c].handler)
    requires h.Claimed? ==> h.entry.from < |s.said| && Out(s, h.entry.from)
    requires !s.conns[c].handler.Claimed?
    ensures Orderly(Handling(s, c, h))
  {
    var s' := Handling(s, c, h);
    hide TaskOf, Last;
    forall k {:trigger Out(s', k)} {:trigger Out(s, k)} {:trigger Finished(s, k)} {:trigger Finished(s', k)}
      ensures Stays(s, s', k)
    {
      HandlerStays(s, c, h, k);
    }
    hide Out, Finished;
    assert forall k :: Stays(s, s', k);
    forall d {:trigger s'.conns[d]} | 0 <= d < |s'.conns|
      ensures OwnEntry(s', s'.conns[d])
    {
      OwnSame(s, s', if d == c then s.conns[c].(handler := h) else s.conns[d]);
    }
    StayOrderly(s, s');
  }

  lemma {:induction false} HandlerStays(s: Net, c: nat, h: Handler, k: nat)
    requires c < |s.conns| && (Past(h) <==> Past(s.conns[c].handler)) && !s.conns[c].handler.Claimed?
    requires h.Claimed? ==> Out(s, h.entry.from)
    ensures Stays(s, Handling(s, c, h), k)
  {
    var s' := Handling(s, c, h);
    assert InTasks(s', k) <==> InTasks(s, k);
    assert InTable(s', k) <==> InTable(s, k);
    assert forall d :: 0 <= d < |s.conns| && d != c ==> s'.conns[d] == s.conns[d];
    assert s'.conns[c].handler == h && s'.conns[c].ask == s.conns[c].ask;
    if InClaim(s, k) {
      var d :| 0 <= d < |s.conns| && s.conns[d].handler.Claimed? && s.conns[d].handler.entry.from == k;
      assert s'.conns[d].handler.Claimed?;
    }
    assert InClaim(s', k) ==> InClaim(s, k) || (h.Claimed? && h.entry.from == k);
    if Finished(s, k) {
      var d :| 0 <= d < |s.conns| && s.conns[d].ask == Some(k) && Past(s.conns[d].handler);
      assert s'.conns[d].ask == Some(k) && Past(s'.conns[d].handler);
    }
    if Finished(s', k) {
      var d :| 0 <= d < |s'.conns| && s'.conns[d].ask == Some(k) && Past(s'.conns[d].handler);
      assert s.conns[d].ask == Some(k) && Past(s.conns[d].handler);
    }
  }

  lemma {:induction false} SeeOrderly(s: Net, c: nat, pid: string)
    requires Traced(s) && Orderly(s) && Enabled(s, See(c, pid))
    ensures Orderly(Next(s, See(c, pid)))
  {
    hide PrintLines, TaskOf;
    var x, e := s.conns[c], s.table[pid];
    assert ConnTraced(s, x) && Genuine(s, e) && InTable(s, e.from);
    hide Traced, Out, Last;
    if x.ask.Some? && PidOf(s, x.ask.value) == e.task.pid {
      OwnIsOut(s, c);
      OutInTable(s, e.from);
      OneOut(s, x.ask.value, e.from);
    }
    hide Orderly;
    HandlerOrderly(s, c, Seen(x.handler.tries, e));
  }

  lemma {:induction false} OutInTable(s: Net, k: nat)
    requires InTable(s, k)
    ensures Out(s, k)
  {
  }

  lemma {:induction false} TestOrderly(s: Net, c: nat)
    requires Traced(s) && Orderly(s) && OneHolder(s) && Enabled(s, Test(c))
    ensures Orderly(Next(s, Test(c)))
  {
    hide PrintLines, TaskOf;
    var x, e := s.conns[c], s.conns[c].handler.entry;
    assert ConnTraced(s, x) && Genuine(s, e) && OwnEntry(s, x);
    if (e.task.pid, x.inode) in s.holds {
      assert PidOf(s, e.from) == e.task.pid && s.said[e.from].pid >= 0;
      assert x.ask == Some(e.from);
      hide Traced, Out, Last;
      OwnIsOut(s, c);
      hide Orderly, OneHolder;
      HandlerOrderly(s, c, Claimed(e));
    } else {
      hide Traced, Out, Last, Orderly, OneHolder;
      HandlerOrderly(s, c, Looking(x.handler.tries));
    }
  }

  lemma {:induction false} OutDeleted(s: Net, c: nat, k: nat)
    requires Traced(s) && Orderly(s) && Enabled(s, Delete(c)) && k < |s.said| && Out(s, k)
    ensures Out(Next(s, Delete(c)), k) || k == s.conns[c].handler.entry.from
  {
    hide PrintLines, TaskOf;
    var s', e := Next(s, Delete(c)), s.conns[c].handler.entry;
    assert ConnTraced(s, s.conns[c]) && Genuine(s, e) && InClaim(s, e.from);
    if InTable(s, k) {
      var p :| p in s.table && s.table[p].from == k;
      assert Genuine(s, s.table[p]);
      if p == e.task.pid {
        OneOut(s, k, e.from);
      } else {
        assert p in s'.table;
      }
    }
    if InClaim(s, k) {
      var d :| 0 <= d < |s.conns| && s.conns[d].handler.Claimed? && s.conns[d].handler.entry.from == k;
      assert d != c ==> s'.conns[d] == s.conns[d];
    }
    assert InTasks(s, k) ==> InTasks(s', k);
  }

  lemma {:induction false} OutBefore(s: Net, c: nat, k: nat)
    requires Enabled(s, Delete(c)) && Out(Next(s, Delete(c)), k)
    ensures Out(s, k)
  {
    var s' := Next(s, Delete(c));
    assert InTasks(s', k) ==> InTasks(s, k);
    assert InTable(s', k) ==> InTable(s, k);
    assert forall d :: 0 <= d < |s.conns| && d != c ==> s'.conns[d] == s.conns[d];
    assert InClaim(s', k) ==> InClaim(s, k);
  }

  lemma {:induction false} DeleteOrderly(s: Net, c: nat)
    requires Traced(s) && Orderly(s) && Enabled(s, Delete(c))
    ensures Orderly(Next(s, Delete(c)))
  {
    hide PrintLines, TaskOf;
    var s', e := Next(s, Delete(c)), s.conns[c].handler.entry;
    assert OwnEntry(s, s.conns[c]);
    assert s'.conns[c].ask == Some(e.from) && Past(s'.conns[c].handler);
    forall k {:trigger Out(s', k)} {:trigger Out(s, k)} {:trigger Finished(s, k)} {:trigger Finished(s', k)} | 0 <= k < |s.said|
      ensures (Out(s', k) ==> Out(s, k)) && (Out(s, k) ==> Out(s', k) || Finished(s', k)) && (Finished(s, k) ==> Finished(s', k))
    {
      if Out(s, k) {
        OutDeleted(s, c, k);
      }
      if Out(s', k) {
        OutBefore(s, c, k);
      }
      if Finished(s, k) {
        var d :| 0 <= d < |s.conns| && s.conns[d].ask == Some(k) && Past(s.conns[d].handler);
        assert s'.conns[d].ask == Some(k) && Past(s'.conns[d].handler);
      }
    }
    hide Out, Finished, Traced;
    forall d {:trigger s'.conns[d]} | 0 <= d < |s'.conns|
      ensures OwnEntry(s', s'.conns[d])
    {
      OwnSame(s, s', if d == c then s.conns[c].(handler := Deleted(e)) else s.conns[d]);
    }
    StayOrderly(s, s');
  }

  lemma {:induction false} DialOrderly(s: Net, c: nat)
    requires Traced(s) && Orderly(s) && Enabled(s, Dial(c))
    ensures Orderly(Next(s, Dial(c)))
  {
    hide PrintLines;
    var x := s.conns[c];
    assert ConnTraced(s, x) && Genuine(s, x.handler.entry) && OwnEntry(s, x);
    hide Traced, Orderly, Out, Last;
    HandlerOrderly(s, c, Dialed(x.handler.entry));
  }

  lemma {:induction false} StepOrderly(s: Net, t: Step)
    requires Traced(s) && Placed(s) && Orderly(s) && OneHolder(s) && Enabled(s, t) && InTurn(s, t)
    ensures Orderly(Next(s, t))
  {
    hide Traced, Placed, Orderly, OneHolder, InTurn, Past;
    if t.Announce? {
      AnnounceOrderly(s, t.a);
    } else if t.Parse? {
      ParseOrderly(s);
    } else if t.Store? {
      StoreOrderly(s, t.entry);
    } else if t.Accept? {
      AcceptOrderly(s, t.inode, t.ask);
    } else if t.Hold? || t.Release? {
      HoldOrderly(s, t);
    } else if t.See? {
      SeeOrderly(s, t.c, t.pid);
    } else if t.Test? {
      TestOrderly(s, t.c);
    } else if t.Delete? {
      DeleteOrderly(s, t.c);
    } else if t.Dial? {
      DialOrderly(s, t.c);
    } else {
      GiveUpOrderly(s, t);
    }
  }

  lemma {:induction false} GiveUpOrderly(s: Net, t: Step)
    requires Orderly(s) && Enabled(s, t) && (t.NoInode? || t.Retry?)
    ensures Orderly(Next(s, t))
  {
    hide Orderly;
    HandlerOrderly(s, t.c, Next(s, t).conns[t.c].handler);
  }

  // ---- Claimed entries ----

  ghost predicate InMap(s: Net, e: Entry) {
    e.task.pid in s.table && s.table[e.task.pid].from == e.from
  }

  /** What a handler has claimed and not yet deleted is still in the map. */
  ghost predicate Kept(s: Net) {
    forall c {:trigger s.conns[c]} :: 0 <= c < |s.conns| && s.conns[c].handler.Claimed? ==> InMap(s, s.conns[c].handler.entry)
  }

  /** No two handlers have claimed entries of one process. */
  lemma {:induction false} OneClaim(s: Net, c: nat, d: nat)
    requires Traced(s) && Orderly(s) && c < |s.conns| && d < |s.conns| && c != d
    requires s.conns[c].handler.Claimed? && s.conns[d].handler.Claimed?
    ensures s.conns[c].handler.entry.task.pid != s.conns[d].handler.entry.task.pid
  {
    hide PrintLines, TaskOf, Last;
    var e, f := s.conns[c].handler.entry, s.conns[d].handler.entry;
    assert ConnTraced(s, s.conns[c]) && ConnTraced(s, s.conns[d]);
    assert InClaim(s, e.from) && InClaim(s, f.from);
    assert OwnEntry(s, s.conns[c]) && OwnEntry(s, s.conns[d]);
    if PidOf(s, e.from) == PidOf(s, f.from) {
      OneOut(s, e.from, f.from);
    }
  }

  lemma {:induction false} StoreKept(s: Net, e: Entry)
    requires Traced(s) && Placed(s) && Orderly(s) && Kept(s) && e in s.tasks
    ensures Kept(Next(s, Store(e)))
  {
    hide PrintLines, TaskOf, Last;
    forall c {:trigger s.conns[c]} | 0 <= c < |s.conns| && s.conns[c].handler.Claimed?
      ensures s.conns[c].handler.entry.task.pid != e.task.pid
    {
      var f := s.conns[c].handler.entry;
      assert ConnTraced(s, s.conns[c]) && ConnPlaced(s, s.conns[c]) && Genuine(s, e);
      assert InClaim(s, f.from) && InTasks(s, e.from) && !InTasks(s, f.from);
      if f.task.pid == e.task.pid {
        OneOut(s, f.from, e.from);
      }
    }
    hide Traced, Placed, Orderly;
  }

  lemma {:induction false} DeleteKept(s: Net, c: nat)
    requires Traced(s) && Orderly(s) && Kept(s) && Enabled(s, Delete(c))
    ensures Kept(Next(s, Delete(c)))
  {
    var s' := Next(s, Delete(c));
    hide Traced, Orderly, PrintLines;
    forall d {:trigger s'.conns[d]} | 0 <= d < |s'.conns| && s'.conns[d].handler.Claimed?
      ensures InMap(s', s'.conns[d].handler.entry)
    {
      assert d != c && s'.conns[d] == s.conns[d];
      OneClaim(s, c, d);
    }
  }

  /** The announcement of a handler that is shown it is nowhere but in the map. */
  lemma {:induction false} SeenInMap(s: Net, c: nat)
    requires Traced(s) && Placed(s) && Orderly(s) && c < |s.conns| && s.conns[c].handler.Seen?
    requires s.conns[c].ask == Some(s.conns[c].handler.entry.from)
    ensures InMap(s, s.conns[c].handler.entry)
  {
    hide PrintLines, TaskOf, Last;
    var e := s.conns[c].handler.entry;
    assert ConnTraced(s, s.conns[c]) && ConnPlaced(s, s.conns[c]);
    OwnIsOut(s, c);
    assert !InClaim(s, e.from) by {
      forall d {:trigger s.conns[d]} | 0 <= d < |s.conns| && s.conns[d].handler.Claimed?
        ensures s.conns[d].handler.entry.from != e.from
      {
        assert OwnEntry(s, s.conns[d]) && d != c && s.conns[d].ask != s.conns[c].ask;
      }
    }
    var p :| p in s.table && s.table[p].from == e.from;
    assert Genuine(s, s.table[p]) && s.table[p].task.pid == p;
  }

  lemma {:induction false} TestKept(s: Net, c: nat)
    requires Traced(s) && Placed(s) && Orderly(s) && OneHolder(s) && Kept(s) && Enabled(s, Test(c))
    ensures Kept(Next(s, Test(c)))
  {
    hide PrintLines, TaskOf;
    var s', x, e := Next(s, Test(c)), s.conns[c], s.conns[c].handler.entry;
    assert ConnTraced(s, x) && Genuine(s, e) && OwnEntry(s, x);
    if (e.task.pid, x.inode) in s.holds {
      assert PidOf(s, e.from) == e.task.pid && s.said[e.from].pid >= 0;
      assert x.ask == Some(e.from);
      hide OneHolder;
      SeenInMap(s, c);
    }
    hide Traced, Placed, Orderly, OneHolder, OwnEntry;
    assert forall d :: 0 <= d < |s.conns| && d != c ==> s'.conns[d] == s.conns[d];
  }

  lemma {:induction false} OtherKept(s: Net, t: Step)
    requires Kept(s) && Enabled(s, t) && !t.Store? && !t.Test? && !t.Delete?
    ensures Kept(Next(s, t))
  {
    hide ReadLine, ParseLine, PrintLine;
    var s' := Next(s, t);
    assert s'.table == s.table;
    forall c {:trigger s'.conns[c]} | 0 <= c < |s'.conns| && s'.conns[c].handler.Claimed?
      ensures InMap(s', s'.conns[c].handler.entry)
    {
      assert c < |s.conns| && s.conns[c] == s'.conns[c];
    }
  }

  lemma {:induction false} StepKept(s: Net, t: Step)
    requires Traced(s) && Placed(s) && Orderly(s) && OneHolder(s) && Kept(s) && Enabled(s, t)
    ensures Kept(Next(s, t))
  {
    if t.Store? {
      StoreKept(s, t.entry);
    } else if t.Test? {
      TestKept(s, t.c);
    } else if t.Delete? {
      DeleteKept(s, t.c);
    } else {
      hide Traced, Placed, Orderly, OneHolder, Kept;
      OtherKept(s, t);
    }
  }

  lemma {:induction false} AlwaysPlaced(ts: seq<Step>)
    requires Possible(ts)
    ensures Placed(Reached(ts))
  {
    if ts != [] {
      var front := ts[..|ts| - 1];
      AlwaysPlaced(front);
      AlwaysTraced(front);
      hide Traced, Placed, Next;
      StepPlaced(Reached(front), ts[|ts| - 1]);
    }
  }

  lemma {:induction false} AlwaysOrderly(ts: seq<Step>)
    requires Possible(ts) && Behaved(ts)
    ensures Placed(Reached(ts)) && Orderly(Reached(ts)) && OneHolder(Reached(ts)) && Kept(Reached(ts))
  {
    AlwaysPlaced(ts);
    if ts != [] {
      var front := ts[..|ts| - 1];
      AlwaysOrderly(front);
      AlwaysTraced(front);
      hide Traced, Placed, Orderly, OneHolder, InTurn, Next, Kept;
      StepOrderly(Reached(front), ts[|ts| - 1]);
      StepKept(Reached(front), ts[|ts| - 1]);
    }
  }

  /** Under the discipline, over every interleaving, every connection that is dialed is dialed to the destination that
      its own `connect` asked for. */
  lemma {:induction false} DialsOwnDestination(ts: seq<Step>, c: nat)
    requires Possible(ts) && Behaved(ts) && c < |Reached(ts).conns| && Reached(ts).conns[c].handler.Dialed?
    ensures var s, x := Reached(ts), Reached(ts).conns[c];
            && x.ask.Some? && x.ask.value < |s.said|
            && x.handler.entry.task.addr == HostPort(s.said[x.ask.value].ip, Dec(s.said[x.ask.value].port))
  {
    hide PrintLines, Dec, HostPort;
    AlwaysOrderly(ts);
    AlwaysTraced(ts);
    var s, x := Reached(ts), Reached(ts).conns[c];
    assert ConnTraced(s, x) && Genuine(s, x.handler.entry) && OwnEntry(s, x);
  }
}
