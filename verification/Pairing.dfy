/** How an accepted connection finds its destination: the tracer's lines, the reader and its unordered store tasks, the
    shared map, and the handlers that search and then delete, as interleaved steps. */
module Pairing {
  import opened Options
  import opened Text
  import opened Lines

  /** A task, or the map entry that it leaves, with the number of the announcement that it came from; no step looks
      at the number. */
  datatype Entry = Entry(task: Task, from: nat)

  /** How far the handler of a connection is: on which of its three tries, with an entry that its range over the map
      has just shown it, with one that it will delete, that it has deleted, or that it has dialed. */
  datatype Handler =
    | Looking(tries: nat)
    | Seen(tries: nat, entry: Entry)
    | Claimed(entry: Entry)
    | Deleted(entry: Entry)
    | Dialed(entry: Entry)
    | Failed

  /** An accepted connection: its inode at the process's side, the announcement of its own `connect`, if that was
      announced, and its handler. */
  datatype Conn = Conn(inode: string, ask: Option<nat>, handler: Handler)

  /** All announcements so far, the text in the FIFO and the numbers of its lines, the store tasks not yet done, the
      map, the connections, and which process holds which inode, now and ever. */
  datatype Net = Net(said: seq<Announcement>, fifo: string, queue: seq<nat>, tasks: set<Entry>, table: map<string, Entry>,
                     conns: seq<Conn>, holds: set<(string, string)>, held: set<(string, string)>)

  datatype Step =
    | Announce(a: Announcement)
    | Parse
    | Store(entry: Entry)
    | Accept(inode: string, ask: Option<nat>)
    | Hold(pid: string, inode: string)
    | Release(pid: string, inode: string)
    | NoInode(c: nat)
    | See(c: nat, pid: string)
    | Test(c: nat)
    | Retry(c: nat)
    | Delete(c: nat)
    | Dial(c: nat)

  function Idle(): (s: Net) {
    Net([], "", [], {}, map[], [], {}, {})
  }

  /** A step that can be taken. A connection is accepted for at most one announced `connect`, after it. */
  predicate Enabled(s: Net, t: Step) {
    match t
    case Announce(a) => a.ip != "" && '\n' !in a.ip
    case Parse => s.queue != []
    case Store(e) => e in s.tasks
    case Accept(_, ask) => ask.Some? ==> ask.value < |s.said| && forall c :: 0 <= c < |s.conns| ==> s.conns[c].ask != ask
    case Hold(_, _) => true
    case Release(_, _) => true
    case NoInode(c) => c < |s.conns| && s.conns[c].handler == Looking(0)
    case See(c, pid) => c < |s.conns| && s.conns[c].handler.Looking? && pid in s.table
    case Test(c) => c < |s.conns| && s.conns[c].handler.Seen?
    case Retry(c) => c < |s.conns| && s.conns[c].handler.Looking?
    case Delete(c) => c < |s.conns| && s.conns[c].handler.Claimed?
    case Dial(c) => c < |s.conns| && s.conns[c].handler.Deleted?
  }

  function Handling(s: Net, c: nat, h: Handler): (s': Net)
    requires c < |s.conns|
  {
    s.(conns := s.conns[c := s.conns[c].(handler := h)])
  }

  function Next(s: Net, t: Step): (s': Net)
    requires Enabled(s, t)
  {
    match t
    case Announce(a) => s.(said := s.said + [a], fifo := s.fifo + PrintLine(a), queue := s.queue + [|s.said|])
    case Parse =>
      var r := ReadLine(s.fifo);
      if r.None? then s
      else
        var task := ParseLine(r.value.0);
        var rest := s.(fifo := r.value.1, queue := s.queue[1..]);
        if task.None? then rest else rest.(tasks := s.tasks + {Entry(task.value, s.queue[0])})
    case Store(e) => s.(tasks := s.tasks - {e}, table := s.table[e.task.pid := e])
    case Accept(inode, ask) => s.(conns := s.conns + [Conn(inode, ask, Looking(0))])
    case Hold(pid, inode) => s.(holds := s.holds + {(pid, inode)}, held := s.held + {(pid, inode)})
    case Release(pid, inode) => s.(holds := s.holds - {(pid, inode)})
    case NoInode(c) => Handling(s, c, Failed)
    case See(c, pid) => Handling(s, c, Seen(s.conns[c].handler.tries, s.table[pid]))
    case Test(c) =>
      var h := s.conns[c].handler;
      Handling(s, c, if (h.entry.task.pid, s.conns[c].inode) in s.holds then Claimed(h.entry) else Looking(h.tries))
    case Retry(c) =>
      var tries := s.conns[c].handler.tries + 1;
      Handling(s, c, if tries < 3 then Looking(tries) else Failed)
    case Delete(c) =>
      var e := s.conns[c].handler.entry;
      Handling(s.(table := s.table - {e.task.pid}), c, Deleted(e))
    case Dial(c) =>
      var e := s.conns[c].handler.entry;
      Handling(s, c, if e.task.pid == "" || e.task.addr == "" then Failed else Dialed(e))
  }

  predicate Possible(ts: seq<Step>)
    decreases |ts|, 0
  {
    ts == [] || (Possible(ts[..|ts| - 1]) && Enabled(Reached(ts[..|ts| - 1]), ts[|ts| - 1]))
  }

  function Reached(ts: seq<Step>): (s: Net)
    requires Possible(ts)
    decreases |ts|, 1
  {
    if ts == [] then Idle() else Next(Reached(ts[..|ts| - 1]), ts[|ts| - 1])
  }

  // ---- Where everything comes from ----

  ghost predicate Genuine(s: Net, e: Entry) {
    e.from < |s.said| && e.task == TaskOf(s.said[e.from])
  }

  predicate Carries(h: Handler) {
    h.Seen? || h.Claimed? || h.Deleted? || h.Dialed?
  }

  /** What the text in the FIFO was printed from. */
  ghost function Lined(s: Net, queue: seq<nat>): (q: seq<Announcement>)
    requires forall i {:trigger queue[i]} :: 0 <= i < |queue| ==> queue[i] < |s.said|
  {
    seq(|queue|, i requires 0 <= i < |queue| => s.said[queue[i]])
  }

  ghost predicate Traced(s: Net) {
    && (forall k {:trigger s.said[k]} :: 0 <= k < |s.said| ==> s.said[k].ip != "" && '\n' !in s.said[k].ip)
    && (forall i {:trigger s.queue[i]} :: 0 <= i < |s.queue| ==> s.queue[i] < |s.said|)
    && s.fifo == PrintLines(Lined(s, s.queue))
    && (forall e {:trigger e in s.tasks} :: e in s.tasks ==> Genuine(s, e))
    && (forall p {:trigger p in s.table} :: p in s.table ==> Genuine(s, s.table[p]) && s.table[p].task.pid == p)
    && (forall c {:trigger s.conns[c]} :: 0 <= c < |s.conns| ==> ConnTraced(s, s.conns[c]))
    && s.holds <= s.held
  }

  ghost predicate ConnTraced(s: Net, x: Conn) {
    && (Carries(x.handler) ==> Genuine(s, x.handler.entry))
    && (Carries(x.handler) && !x.handler.Seen? ==> (x.handler.entry.task.pid, x.inode) in s.held)
    && (x.ask.Some? ==> x.ask.value < |s.said|)
    && (x.handler.Looking? || x.handler.Seen? ==> x.handler.tries < 3)
  }

  lemma {:induction false} PrintedMore(q: seq<Announcement>, a: Announcement)
    ensures PrintLines(q + [a]) == PrintLines(q) + PrintLine(a)
  {
    hide PrintLine;
    if q == [] {
      assert q + [a] == [a];
      assert [a][1..] == [];
    } else {
      PrintedMore(q[1..], a);
      assert (q + [a])[1..] == q[1..] + [a];
    }
  }

  lemma {:induction false} ParseTraced(s: Net)
    requires Traced(s) && s.queue != []
    ensures Next(s, Parse) ==
              s.(fifo := PrintLines(Lined(s, s.queue[1..])), queue := s.queue[1..],
                 tasks := s.tasks + {Entry(TaskOf(s.said[s.queue[0]]), s.queue[0])})
  {
    var q, a := Lined(s, s.queue), s.said[s.queue[0]];
    assert q[0] == a && q[1..] == Lined(s, s.queue[1..]);
    ReadPrinted(a, PrintLines(q[1..]));
    ParsePrinted(a);
  }

  lemma {:induction false} AnnounceTraced(s: Net, a: Announcement)
    requires Traced(s) && Enabled(s, Announce(a))
    ensures Traced(Next(s, Announce(a)))
  {
    hide PrintLines, PrintLine, TaskOf;
    var s' := Next(s, Announce(a));
    PrintedMore(Lined(s, s.queue), a);
    assert Lined(s', s'.queue) == Lined(s, s.queue) + [a];
  }

  lemma {:induction false} HandlerTraced(s: Net, c: nat, h: Handler)
    requires Traced(s) && c < |s.conns| && ConnTraced(s, s.conns[c].(handler := h))
    ensures Traced(Handling(s, c, h))
  {
    hide PrintLines, TaskOf;
    var s' := Handling(s, c, h);
    assert Lined(s', s'.queue) == Lined(s, s.queue);
  }

  lemma {:induction false} ParseStepTraced(s: Net)
    requires Traced(s) && s.queue != []
    ensures Traced(Next(s, Parse))
  {
    hide PrintLines, TaskOf;
    ParseTraced(s);
    hide ParseLine, ReadLine, Next;
    assert Lined(Next(s, Parse), s.queue[1..]) == Lined(s, s.queue[1..]);
  }

  lemma {:induction false} StoreTraced(s: Net, e: Entry)
    requires Traced(s) && e in s.tasks
    ensures Traced(Next(s, Store(e)))
  {
    hide PrintLines, TaskOf;
    assert Lined(Next(s, Store(e)), s.queue) == Lined(s, s.queue);
  }

  lemma {:induction false} TableTraced(s: Net, p: string)
    requires Traced(s)
    ensures Traced(s.(table := s.table - {p}))
  {
    hide PrintLines, TaskOf;
    var s' := s.(table := s.table - {p});
    assert Lined(s', s.queue) == Lined(s, s.queue);
  }

  lemma {:induction false} AcceptTraced(s: Net, inode: string, ask: Option<nat>)
    requires Traced(s) && Enabled(s, Accept(inode, ask))
    ensures Traced(Next(s, Accept(inode, ask)))
  {
    hide PrintLines, TaskOf;
    assert Lined(Next(s, Accept(inode, ask)), s.queue) == Lined(s, s.queue);
  }

  lemma {:induction false} HoldTraced(s: Net, t: Step)
    requires Traced(s) && (t.Hold? || t.Release?)
    ensures Traced(Next(s, t))
  {
    hide PrintLines, TaskOf;
    assert Lined(Next(s, t), s.queue) == Lined(s, s.queue);
  }

  predicate OfHandler(t: Step) {
    t.NoInode? || t.See? || t.Test? || t.Retry? || t.Delete? || t.Dial?
  }

  lemma {:induction false} HandlerStepTraced(s: Net, t: Step)
    requires Traced(s) && Enabled(s, t) && OfHandler(t)
    ensures Traced(Next(s, t))
  {
    assert ConnTraced(s, s.conns[t.c]);
    assert t.See? ==> Genuine(s, s.table[t.pid]);
    assert s.holds <= s.held;
    hide Traced, Genuine;
    var h := Next(s, t).conns[t.c].handler;
    if t.Delete? {
      TableTraced(s, h.entry.task.pid);
      GenuineSame(s, s.(table := s.table - {h.entry.task.pid}), h.entry);
      HandlerTraced(s.(table := s.table - {h.entry.task.pid}), t.c, h);
    } else {
      HandlerTraced(s, t.c, h);
    }
  }

  lemma {:induction false} StepTraced(s: Net, t: Step)
    requires Traced(s) && Enabled(s, t)
    ensures Traced(Next(s, t))
  {
    if OfHandler(t) {
      HandlerStepTraced(s, t);
    } else {
      hide Traced, Next;
      match t {
        case Announce(a) => AnnounceTraced(s, a);
        case Parse => ParseStepTraced(s);
        case Store(e) => StoreTraced(s, e);
        case Accept(inode, ask) => AcceptTraced(s, inode, ask);
        case Hold(_, _) => HoldTraced(s, t);
        case Release(_, _) => HoldTraced(s, t);
        case _ =>
      }
    }
  }

  lemma {:induction false} GenuineSame(s: Net, s': Net, e: Entry)
    requires s.said == s'.said
    ensures Genuine(s, e) <==> Genuine(s', e)
  {
  }

  /** In every run, every line in the FIFO, store task, map entry and handler traces back to an announcement. */
  lemma {:induction false} AlwaysTraced(ts: seq<Step>)
    requires Possible(ts)
    ensures Traced(Reached(ts))
  {
    if ts != [] {
      hide Traced;
      AlwaysTraced(ts[..|ts| - 1]);
      StepTraced(Reached(ts[..|ts| - 1]), ts[|ts| - 1]);
    } else {
      assert Lined(Idle(), []) == [];
    }
  }

  /** Without any discipline, what a handler dials was announced before, by a process that was seen to hold the
      inode of the connection. */
  lemma {:induction false} DialedWasAnnounced(ts: seq<Step>, c: nat)
    requires Possible(ts) && c < |Reached(ts).conns| && Reached(ts).conns[c].handler.Dialed?
    ensures var s := Reached(ts);
            var e := s.conns[c].handler.entry;
            e.from < |s.said| && e.task == TaskOf(s.said[e.from]) && (Dec(s.said[e.from].pid), s.conns[c].inode) in s.held
  {
    hide PrintLines;
    AlwaysTraced(ts);
    assert ConnTraced(Reached(ts), Reached(ts).conns[c]);
  }
}
