/** Where the discipline of `Discipline` is broken, a connection can be dialed to a destination that is not its own. */
module Misdials {
  import opened Options
  import opened Text
  import opened Lines
  import opened Pairing
  import opened Discipline

  /** A step that keeps to the discipline: announcements come in turn, and no step gives an inode a second holder; where
      there is one already, nobody comes to hold an inode and no connection is accepted that leaves it so. */
  ghost predicate Careful(s: Net, t: Step)
    requires Enabled(s, t)
  {
    InTurn(s, t) && (OneHolder(s) || t.Hold? || t.Accept? ==> OneHolder(Next(s, t)))
  }

  /** From step `n` on the steps keep to the discipline. */
  ghost predicate CarefulFrom(ts: seq<Step>, n: nat)
    requires Possible(ts)
  {
    |ts| <= n || (CarefulFrom(ts[..|ts| - 1], n) && Careful(Reached(ts[..|ts| - 1]), ts[|ts| - 1]))
  }

  /** `us` goes on from `ts` and keeps to the discipline from there on. */
  ghost predicate Continues(ts: seq<Step>, us: seq<Step>) {
    Possible(us) && |ts| <= |us| && us[..|ts|] == ts && CarefulFrom(us, |ts|)
  }

  /** Every connection that is dialed is dialed to what its own `connect` announced. */
  ghost predicate OwnDials(s: Net) {
    forall c {:trigger s.conns[c]} :: 0 <= c < |s.conns| && s.conns[c].handler.Dialed? ==>
      s.conns[c].ask == Some(s.conns[c].handler.entry.from)
  }

  lemma {:induction false} Longer(ts: seq<Step>, t: Step)
    requires Possible(ts) && Enabled(Reached(ts), t)
    ensures Possible(ts + [t]) && Reached(ts + [t]) == Next(Reached(ts), t)
  {
    assert (ts + [t])[..|ts|] == ts;
  }

  lemma {:induction false} GoesOn(ts: seq<Step>, us: seq<Step>, t: Step)
    requires Continues(ts, us) && Enabled(Reached(us), t) && Careful(Reached(us), t)
    ensures Continues(ts, us + [t]) && Reached(us + [t]) == Next(Reached(us), t)
  {
    Longer(us, t);
    assert (us + [t])[..|us|] == us && (us + [t])[..|ts|] == us[..|ts|];
    hide Possible, Reached, Careful, Next, Enabled;
  }

  /** What keeps to the discipline up to a point, and from there on, keeps to it throughout. */
  lemma {:induction false} BehavedJoins(ts: seq<Step>, us: seq<Step>)
    requires Possible(ts) && Behaved(ts) && OneHolder(Reached(ts)) && Continues(ts, us)
    ensures Behaved(us) && OneHolder(Reached(us))
    decreases |us|
  {
    if |us| == |ts| {
      assert us == us[..|ts|];
    } else {
      var front := us[..|us| - 1];
      assert front[..|ts|] == us[..|ts|];
      hide InTurn, OneHolder;
      BehavedJoins(ts, front);
      assert Reached(us) == Next(Reached(front), us[|us| - 1]);
    }
  }

  lemma {:induction false} DialsOwn(ts: seq<Step>)
    requires Possible(ts) && Behaved(ts)
    ensures OwnDials(Reached(ts))
  {
    AlwaysOrderly(ts);
    hide Placed, OneHolder, Kept, Behaved, Asks, Out, Finished, Last, Reached;
    var s := Reached(ts);
    assert forall c {:trigger s.conns[c]} :: 0 <= c < |s.conns| ==> OwnEntry(s, s.conns[c]);
  }

  /** What leaves alone who holds what and whose connections there are, and makes no handler look that did not, gives no
      inode a second holder. */
  lemma {:induction false} HolderSame(s: Net, s': Net)
    requires OneHolder(s) && s'.said == s.said && s'.holds == s.holds && |s'.conns| == |s.conns|
    requires forall c {:trigger s'.conns[c]} :: 0 <= c < |s.conns| ==>
               && s'.conns[c].inode == s.conns[c].inode && s'.conns[c].ask == s.conns[c].ask
               && (Searching(s'.conns[c].handler) ==> Searching(s.conns[c].handler))
    ensures OneHolder(s')
  {
    hide TaskOf, Searching;
    assert forall k :: 0 <= k < |s.said| ==> PidOf(s', k) == PidOf(s, k);
    forall c, k {:trigger s'.conns[c], PidOf(s', k)}
      | 0 <= c < |s'.conns| && Searching(s'.conns[c].handler)
        && 0 <= k < |s'.said| && (PidOf(s', k), s'.conns[c].inode) in s'.holds
      ensures s'.conns[c].ask.Some? && s'.conns[c].ask.value < |s'.said| && PidOf(s', s'.conns[c].ask.value) == PidOf(s', k)
    {
      assert s.said[k] == s'.said[k] && s.conns[c].inode == s'.conns[c].inode;
    }
  }

  lemma {:induction false} HandlerGoesOn(ts: seq<Step>, us: seq<Step>, t: Step)
    requires Continues(ts, us) && Enabled(Reached(us), t) && OfHandler(t)
    ensures Continues(ts, us + [t]) && Reached(us + [t]) == Next(Reached(us), t)
  {
    var s := Reached(us);
    hide Possible, Reached, OneHolder, Continues;
    if OneHolder(s) {
      HolderSame(s, Next(s, t));
    }
    GoesOn(ts, us, t);
  }

  lemma {:induction false} DialsDeleted(ts: seq<Step>, us: seq<Step>, c: nat)
    requires Continues(ts, us) && c < |Reached(us).conns| && Reached(us).conns[c].handler.Deleted?
    requires Reached(us).conns[c].handler.entry.task.pid != "" && Reached(us).conns[c].handler.entry.task.addr != ""
    ensures Continues(ts, us + [Dial(c)])
    ensures var s, s' := Reached(us), Reached(us + [Dial(c)]);
            s' == s.(conns := s.conns[c := s.conns[c].(handler := Dialed(s.conns[c].handler.entry))])
  {
    hide Possible, Reached, Continues;
    HandlerGoesOn(ts, us, Dial(c));
  }

  lemma {:induction false} DialsClaimed(ts: seq<Step>, us: seq<Step>, c: nat) returns (vs: seq<Step>)
    requires Continues(ts, us) && c < |Reached(us).conns| && Reached(us).conns[c].handler.Claimed?
    ensures Continues(ts, vs) && c < |Reached(vs).conns|
    ensures Reached(vs).said == Reached(us).said && |Reached(vs).conns| == |Reached(us).conns|
    ensures Reached(vs).conns[c] == Reached(us).conns[c].(handler := Dialed(Reached(us).conns[c].handler.entry))
  {
    var e := Reached(us).conns[c].handler.entry;
    AlwaysTraced(us);
    assert ConnTraced(Reached(us), Reached(us).conns[c]) && Genuine(Reached(us), e);
    assert e.task.pid != "" && e.task.addr != "";
    hide Possible, Reached, Continues, Traced, ConnTraced, TaskOf, Genuine;
    HandlerGoesOn(ts, us, Delete(c));
    DialsDeleted(ts, us + [Delete(c)], c);
    vs := us + [Delete(c)] + [Dial(c)];
  }

  /** A handler that was shown an entry of a process that holds its inode can dial that entry. */
  lemma {:induction false} DialsSeen(ts: seq<Step>, us: seq<Step>, c: nat) returns (vs: seq<Step>)
    requires Continues(ts, us) && c < |Reached(us).conns| && Reached(us).conns[c].handler.Seen?
    requires (Reached(us).conns[c].handler.entry.task.pid, Reached(us).conns[c].inode) in Reached(us).holds
    ensures Continues(ts, vs) && c < |Reached(vs).conns|
    ensures Reached(vs).said == Reached(us).said && |Reached(vs).conns| == |Reached(us).conns|
    ensures Reached(vs).conns[c] == Reached(us).conns[c].(handler := Dialed(Reached(us).conns[c].handler.entry))
  {
    hide Possible, Reached, Continues;
    HandlerGoesOn(ts, us, Test(c));
    vs := DialsClaimed(ts, us + [Test(c)], c);
  }

  /** So can a handler that looks, while the map holds such an entry. */
  lemma {:induction false} DialsEntry(ts: seq<Step>, us: seq<Step>, c: nat, p: string) returns (vs: seq<Step>)
    requires Continues(ts, us) && c < |Reached(us).conns| && Reached(us).conns[c].handler.Looking?
    requires p in Reached(us).table && (p, Reached(us).conns[c].inode) in Reached(us).holds
    ensures Continues(ts, vs) && c < |Reached(vs).conns|
    ensures Reached(vs).said == Reached(us).said && |Reached(vs).conns| == |Reached(us).conns|
    ensures Reached(vs).conns[c] == Reached(us).conns[c].(handler := Dialed(Reached(us).table[p]))
  {
    AlwaysTraced(us);
    assert Reached(us).table[p].task.pid == p;
    hide Possible, Reached, Continues, Traced;
    HandlerGoesOn(ts, us, See(c, p));
    vs := DialsSeen(ts, us + [See(c, p)], c);
  }

  // ---- Announcing too early ----

  /** Announcement `k` is in the map under its process. */
  ghost predicate Arrived(s: Net, k: nat) {
    k < |s.said| && PidOf(s, k) in s.table && s.table[PidOf(s, k)].from == k
  }

  ghost predicate SameAbout(s: Net, s': Net) {
    s'.said == s.said && s'.conns == s.conns && s'.holds == s.holds
  }

  lemma {:induction false} StoreCareful(s: Net, e: Entry)
    requires e in s.tasks && Genuine(s, e)
    ensures Careful(s, Store(e)) && SameAbout(s, Next(s, Store(e))) && Arrived(Next(s, Store(e)), e.from)
  {
    hide OneHolder, TaskOf, Searching;
    if OneHolder(s) {
      HolderSame(s, Next(s, Store(e)));
    }
    assert e.task.pid == PidOf(s, e.from) == PidOf(Next(s, Store(e)), e.from);
  }

  lemma {:induction false} StoreArrives(ts: seq<Step>, us: seq<Step>, k: nat) returns (vs: seq<Step>)
    requires Continues(ts, us) && k < |Reached(us).said| && InTasks(Reached(us), k)
    ensures Continues(ts, vs) && SameAbout(Reached(us), Reached(vs)) && Arrived(Reached(vs), k)
  {
    var s := Reached(us);
    var e :| e in s.tasks && e.from == k;
    AlwaysTraced(us);
    assert Genuine(s, e);
    hide Possible, Reached, Continues, Traced, Genuine, InTasks, Careful, SameAbout, Arrived, Next;
    StoreCareful(s, e);
    GoesOn(ts, us, Store(e));
    vs := us + [Store(e)];
  }

  lemma {:induction false} ParseGoesOn(ts: seq<Step>, us: seq<Step>)
    requires Continues(ts, us) && Reached(us).queue != []
    ensures var s, s' := Reached(us), Reached(us + [Parse]);
            && Continues(ts, us + [Parse]) && SameAbout(s, s') && s'.queue == s.queue[1..]
            && InTasks(s', s.queue[0])
  {
    var s := Reached(us);
    AlwaysTraced(us);
    ParseTraced(s);
    hide Possible, Reached, OneHolder, Continues, TaskOf, Traced, ParseLine, ReadLine, PrintLines;
    if OneHolder(s) {
      HolderSame(s, Next(s, Parse));
    }
    GoesOn(ts, us, Parse);
    assert Entry(TaskOf(s.said[s.queue[0]]), s.queue[0]) in Next(s, Parse).tasks;
  }

  lemma {:induction false} QueueArrives(ts: seq<Step>, us: seq<Step>, k: nat) returns (vs: seq<Step>)
    requires Continues(ts, us) && k < |Reached(us).said| && k in Reached(us).queue
    ensures Continues(ts, vs) && SameAbout(Reached(us), Reached(vs)) && Arrived(Reached(vs), k)
    decreases |Reached(us).queue|
  {
    var s := Reached(us);
    hide Possible, Reached, OneHolder, Continues, InTasks, Arrived;
    ParseGoesOn(ts, us);
    if s.queue[0] == k {
      vs := StoreArrives(ts, us + [Parse], k);
    } else {
      vs := QueueArrives(ts, us + [Parse], k);
    }
  }

  /** While announcement `k` is on its way, it can come to stand in the map. */
  lemma {:induction false} OutArrives(ts: seq<Step>, us: seq<Step>, k: nat) returns (vs: seq<Step>)
    requires Continues(ts, us) && Kept(Reached(us)) && k < |Reached(us).said| && Out(Reached(us), k)
    ensures Continues(ts, vs) && SameAbout(Reached(us), Reached(vs)) && Arrived(Reached(vs), k)
  {
    var s := Reached(us);
    if k in s.queue {
      vs := QueueArrives(ts, us, k);
    } else if InTasks(s, k) {
      vs := StoreArrives(ts, us, k);
    } else {
      AlwaysTraced(us);
      InMapArrived(s, k);
      vs := us;
    }
  }

  lemma {:induction false} InMapArrived(s: Net, k: nat)
    requires Traced(s) && Kept(s) && (InTable(s, k) || InClaim(s, k))
    ensures Arrived(s, k)
  {
    hide PrintLines, TaskOf;
    assert InTable(s, k);
    var p :| p in s.table && s.table[p].from == k;
    assert Genuine(s, s.table[p]) && s.table[p].task.pid == p;
  }

  ghost function Longest(s: set<string>): (n: nat) {
    if s == {} then 0
    else
      var x :| x in s;
      var n := Longest(s - {x});
      if |x| > n then |x| else n
  }

  lemma {:induction false} LongestBounds(s: set<string>, x: string)
    requires x in s
    ensures |x| <= Longest(s)
  {
    var y :| y in s && Longest(s) == if |y| > Longest(s - {y}) then |y| else Longest(s - {y});
    if x != y {
      LongestBounds(s - {y}, x);
    }
  }

  ghost function Inodes(s: Net): (r: set<string>) {
    (set c | 0 <= c < |s.conns| :: s.conns[c].inode) + (set h | h in s.holds :: h.1)
  }

  /** There is always an inode that no connection has and no process holds. */
  lemma {:induction false} NewInode(s: Net) returns (inode: string)
    ensures inode !in Inodes(s)
  {
    inode := seq(Longest(Inodes(s)) + 1, _ => '1');
    if inode in Inodes(s) {
      LongestBounds(Inodes(s), inode);
    }
  }

  lemma {:induction false} NewIsNew(s: Net, inode: string)
    requires inode !in Inodes(s)
    ensures forall c {:trigger s.conns[c]} :: 0 <= c < |s.conns| ==> s.conns[c].inode != inode
    ensures forall p {:trigger (p, inode) in s.holds} :: (p, inode) !in s.holds
  {
    assert forall h {:trigger h in s.holds} :: h in s.holds ==> h.1 in Inodes(s);
  }

  lemma {:induction false} AcceptHolder(s: Net, inode: string, n: nat)
    requires OneHolder(s) && Enabled(s, Accept(inode, Some(n))) && inode !in Inodes(s)
    ensures OneHolder(Next(s, Accept(inode, Some(n))))
  {
    NewIsNew(s, inode);
    hide TaskOf, Inodes;
    var s' := Next(s, Accept(inode, Some(n)));
    forall c, k {:trigger s'.conns[c], PidOf(s', k)}
      | 0 <= c < |s'.conns| && Searching(s'.conns[c].handler)
        && 0 <= k < |s'.said| && (PidOf(s', k), s'.conns[c].inode) in s'.holds
      ensures s'.conns[c].ask.Some? && s'.conns[c].ask.value < |s'.said| && PidOf(s', s'.conns[c].ask.value) == PidOf(s', k)
    {
      assert c < |s.conns| && s.conns[c] == s'.conns[c] && s.said[k] == s'.said[k] && PidOf(s, k) == PidOf(s', k);
    }
  }

  lemma {:induction false} HoldHolder(s: Net, c: nat, p: string)
    requires OneHolder(s) && c < |s.conns| && s.conns[c].ask.Some? && s.conns[c].ask.value < |s.said|
    requires PidOf(s, s.conns[c].ask.value) == p
    requires forall d {:trigger s.conns[d]} :: 0 <= d < |s.conns| && d != c ==> s.conns[d].inode != s.conns[c].inode
    ensures OneHolder(Next(s, Hold(p, s.conns[c].inode)))
  {
    hide TaskOf;
    var s' := Next(s, Hold(p, s.conns[c].inode));
    forall d, k {:trigger s'.conns[d], PidOf(s', k)}
      | 0 <= d < |s'.conns| && Searching(s'.conns[d].handler)
        && 0 <= k < |s'.said| && (PidOf(s', k), s'.conns[d].inode) in s'.holds
      ensures s'.conns[d].ask.Some? && s'.conns[d].ask.value < |s'.said| && PidOf(s', s'.conns[d].ask.value) == PidOf(s', k)
    {
      assert s.conns[d] == s'.conns[d] && s.said[k] == s'.said[k] && PidOf(s, k) == PidOf(s', k);
    }
  }

  /** A connection for announcement `n` can arrive and dial the entry that the map holds for its process. */
  lemma {:induction false} ArrivesAndDials(ts: seq<Step>, us: seq<Step>, k: nat, n: nat) returns (vs: seq<Step>)
    requires Continues(ts, us) && OneHolder(Reached(us)) && Arrived(Reached(us), k)
    requires n < |Reached(us).said| && PidOf(Reached(us), n) == PidOf(Reached(us), k)
    requires forall c {:trigger Reached(us).conns[c]} :: 0 <= c < |Reached(us).conns| ==> Reached(us).conns[c].ask != Some(n)
    ensures Continues(ts, vs) && |Reached(us).conns| < |Reached(vs).conns|
    ensures var x := Reached(vs).conns[|Reached(us).conns|];
            x.ask == Some(n) && x.handler.Dialed? && x.handler.entry.from == k
  {
    var s, c, p := Reached(us), |Reached(us).conns|, PidOf(Reached(us), n);
    var inode := NewInode(s);
    NewIsNew(s, inode);
    hide Possible, Reached, OneHolder, Continues, TaskOf, Inodes;
    AcceptHolder(s, inode, n);
    GoesOn(ts, us, Accept(inode, Some(n)));
    var us1 := us + [Accept(inode, Some(n))];
    HoldHolder(Reached(us1), c, p);
    GoesOn(ts, us1, Hold(p, inode));
    vs := DialsEntry(ts, us1 + [Hold(p, inode)], c, p);
  }

  lemma {:induction false} AnnounceHolder(s: Net, b: Announcement, k: nat)
    requires Traced(s) && OneHolder(s) && k < |s.said| && PidOf(s, k) == TaskOf(b).pid && Enabled(s, Announce(b))
    ensures OneHolder(Next(s, Announce(b)))
  {
    var s', n := Next(s, Announce(b)), |s.said|;
    assert PidOf(s', n) == PidOf(s, k);
    assert forall m :: 0 <= m < n ==> PidOf(s', m) == PidOf(s, m);
    hide TaskOf, PrintLine, PrintLines, PidOf, Genuine;
    forall c, m {:trigger s'.conns[c], PidOf(s', m)}
      | 0 <= c < |s'.conns| && Searching(s'.conns[c].handler)
        && 0 <= m < |s'.said| && (PidOf(s', m), s'.conns[c].inode) in s'.holds
      ensures s'.conns[c].ask.Some? && s'.conns[c].ask.value < |s'.said| && PidOf(s', s'.conns[c].ask.value) == PidOf(s', m)
    {
      assert s.conns[c] == s'.conns[c] && PidOf(s', m) == PidOf(s, if m < n then m else k);
    }
  }

  /** The announcement that comes too early leaves the one before it on its way. */
  ghost predicate TooEarly(s: Net, k: nat, n: nat) {
    && k < n < |s.said| && Out(s, k) && PidOf(s, n) == PidOf(s, k) && OneHolder(s) && Kept(s)
    && forall d {:trigger s.conns[d]} :: 0 <= d < |s.conns| ==> s.conns[d].ask != Some(n)
  }

  lemma {:induction false} AnnouncedTooEarly(s: Net, b: Announcement) returns (k: nat)
    requires Traced(s) && Orderly(s) && OneHolder(s) && Kept(s) && Enabled(s, Announce(b)) && !InTurn(s, Announce(b))
    ensures TooEarly(Next(s, Announce(b)), k, |s.said|)
  {
    k :| 0 <= k < |s.said| && PidOf(s, k) == TaskOf(b).pid && Last(s, k) && !Finished(s, k);
    assert Out(s, k);
    hide PrintLine, PrintLines, Last, Finished, Orderly;
    forall d {:trigger s.conns[d]} | 0 <= d < |s.conns|
      ensures s.conns[d].ask != Some(|s.said|)
    {
      assert ConnTraced(s, s.conns[d]);
    }
    AnnounceStays(s, b, k);
    AnnounceHolder(s, b, k);
    OtherKept(s, Announce(b));
    hide Out, OneHolder, Kept, InTurn, Traced;
  }

  lemma {:induction false} TooEarlyDials(ts: seq<Step>, k: nat, n: nat) returns (us: seq<Step>, c: nat)
    requires Possible(ts) && TooEarly(Reached(ts), k, n)
    ensures Continues(ts, us) && c < |Reached(us).conns|
    ensures var x := Reached(us).conns[c];
            x.ask == Some(n) && x.handler.Dialed? && x.handler.entry.from == k
  {
    assert Continues(ts, ts);
    var s := Reached(ts);
    hide Possible, Reached, Continues, Out, OneHolder, Kept, Arrived, TaskOf;
    us := OutArrives(ts, ts, k);
    HolderSame(s, Reached(us));
    c := |s.conns|;
    us := ArrivesAndDials(ts, us, k, n);
  }

  /** A process that announces before its last announcement was claimed and deleted: in every such state, even if all
      keep to the discipline from there on, the connection of the new announcement can be dialed to the old one. */
  lemma {:induction false} TooEarlyMisdials(ts: seq<Step>, b: Announcement) returns (us: seq<Step>, c: nat)
    requires Possible(ts) && Behaved(ts) && Enabled(Reached(ts), Announce(b)) && !InTurn(Reached(ts), Announce(b))
    ensures Continues(ts + [Announce(b)], us) && c < |Reached(us).conns|
    ensures var x := Reached(us).conns[c];
            x.ask == Some(|Reached(ts).said|) && x.handler.Dialed? && x.handler.entry.from < |Reached(ts).said|
  {
    AlwaysOrderly(ts);
    AlwaysTraced(ts);
    Longer(ts, Announce(b));
    hide *;
    var k := AnnouncedTooEarly(Reached(ts), b);
    us, c := TooEarlyDials(ts + [Announce(b)], k, |Reached(ts).said|);
    TooEarlyNumbers(Reached(ts + [Announce(b)]), k, |Reached(ts).said|);
  }

  lemma {:induction false} TooEarlyNumbers(s: Net, k: nat, n: nat)
    requires TooEarly(s, k, n)
    ensures k < n
  {
  }

  // ---- An inode with two holders ----

  /** A process other than the one that a connection belongs to comes to hold its inode, as another thread of the same
      program does: wherever the map has an announcement of that process, the connection can be dialed to it. */
  lemma {:induction false} OtherHolderMisdials(ts: seq<Step>, c: nat, q: string) returns (us: seq<Step>)
    requires Possible(ts) && c < |Reached(ts).conns| && Reached(ts).conns[c].handler.Looking?
    requires q in Reached(ts).table && Reached(ts).conns[c].ask != Some(Reached(ts).table[q].from)
    ensures Continues(ts + [Hold(q, Reached(ts).conns[c].inode)], us) && c < |Reached(us).conns|
    ensures Reached(us).said == Reached(ts).said && |Reached(us).conns| == |Reached(ts).conns|
    ensures Reached(us).conns[c] == Reached(ts).conns[c].(handler := Dialed(Reached(ts).table[q]))
    ensures !OwnDials(Reached(us))
  {
    var h := Hold(q, Reached(ts).conns[c].inode);
    Longer(ts, h);
    ContinuesItself(ts + [h]);
    hide Possible, Reached, Continues;
    us := DialsEntry(ts + [h], ts + [h], c, q);
    assert Reached(us).conns[c].handler.Dialed?;
  }

  /** The handler of connection `c` looks while process `q`, which has announced but not that connection, holds the
      inode. */
  ghost predicate Broken(s: Net, c: nat, q: string) {
    && c < |s.conns| && Searching(s.conns[c].handler) && (q, s.conns[c].inode) in s.holds
    && (exists k {:trigger PidOf(s, k)} :: 0 <= k < |s.said| && PidOf(s, k) == q)
    && !(s.conns[c].ask.Some? && s.conns[c].ask.value < |s.said| && PidOf(s, s.conns[c].ask.value) == q)
  }

  lemma {:induction false} BrokenSomewhere(s: Net) returns (c: nat, q: string)
    requires !OneHolder(s)
    ensures Broken(s, c, q)
  {
    var d, k :| 0 <= d < |s.conns| && Searching(s.conns[d].handler)
      && 0 <= k < |s.said| && (PidOf(s, k), s.conns[d].inode) in s.holds
      && !(s.conns[d].ask.Some? && s.conns[d].ask.value < |s.said| && PidOf(s, s.conns[d].ask.value) == PidOf(s, k));
    c, q := d, PidOf(s, k);
  }

  lemma {:induction false} BrokenHolder(s: Net, c: nat, q: string)
    requires Broken(s, c, q)
    ensures !OneHolder(s)
  {
    var k :| 0 <= k < |s.said| && PidOf(s, k) == q;
  }

  /** More announcements and other entries leave it so. */
  lemma {:induction false} BrokenFollows(s: Net, s': Net, c: nat, q: string)
    requires Traced(s) && Broken(s, c, q) && |s.said| <= |s'.said| && s'.said[..|s.said|] == s.said
    requires s'.conns == s.conns && s'.holds == s.holds
    ensures Broken(s', c, q)
  {
    assert ConnTraced(s, s.conns[c]);
    assert forall k :: 0 <= k < |s.said| ==> s'.said[k] == s.said[k] && PidOf(s', k) == PidOf(s, k);
    var k :| 0 <= k < |s.said| && PidOf(s, k) == q;
    assert PidOf(s', k) == q;
  }

  ghost predicate DialedOf(s: Net, c: nat, q: string) {
    c < |s.conns| && s.conns[c].handler.Dialed? && s.conns[c].handler.entry.task.pid == q
  }

  /** What such a connection dials of the other process is not its own. */
  lemma {:induction false} ForeignDial(s: Net, s': Net, c: nat, q: string)
    requires Traced(s') && Broken(s, c, q) && s'.said == s.said && DialedOf(s', c, q)
    requires s'.conns[c].ask == s.conns[c].ask
    ensures !OwnDials(s')
  {
    var e := s'.conns[c].handler.entry;
    assert ConnTraced(s', s'.conns[c]) && Genuine(s', e) && PidOf(s, e.from) == q;
  }

  /** The handler is brought back to looking: the process of the entry it was shown lets go of the inode. */
  lemma {:induction false} LooksAgain(ts: seq<Step>, us: seq<Step>, c: nat, q: string) returns (vs: seq<Step>)
    requires Continues(ts, us) && Broken(Reached(us), c, q) && Reached(us).conns[c].handler.Seen?
    requires Reached(us).conns[c].handler.entry.task.pid != q
    ensures Continues(ts, vs) && c < |Reached(vs).conns| && Reached(vs).conns[c].handler.Looking?
    ensures var s, s' := Reached(us), Reached(vs);
            && s'.said == s.said && s'.table == s.table && s'.conns[c].ask == s.conns[c].ask
            && s'.conns[c].inode == s.conns[c].inode && (q, s.conns[c].inode) in s'.holds
  {
    var s := Reached(us);
    var away := Release(s.conns[c].handler.entry.task.pid, s.conns[c].inode);
    BrokenHolder(s, c, q);
    hide Possible, Reached, Continues, OneHolder;
    GoesOn(ts, us, away);
    HandlerGoesOn(ts, us + [away], Test(c));
    vs := us + [away] + [Test(c)];
  }

  /** With an entry of the other process in the map, the connection can be dialed to that process's destination. */
  lemma {:induction false} BrokenDials(ts: seq<Step>, us: seq<Step>, c: nat, q: string) returns (vs: seq<Step>)
    requires Continues(ts, us) && Broken(Reached(us), c, q) && q in Reached(us).table
    ensures Continues(ts, vs) && DialedOf(Reached(vs), c, q) && !OwnDials(Reached(vs))
  {
    var s := Reached(us);
    AlwaysTraced(us);
    assert s.table[q].task.pid == q;
    if s.conns[c].handler.Seen? && s.conns[c].handler.entry.task.pid == q {
      hide Possible, Reached, Continues, Traced;
      vs := DialsSeen(ts, us, c);
    } else if s.conns[c].handler.Seen? {
      hide Possible, Reached, Continues, Traced;
      vs := LooksAgain(ts, us, c, q);
      vs := DialsEntry(ts, vs, c, q);
    } else {
      hide Possible, Reached, Continues, Traced;
      vs := DialsEntry(ts, us, c, q);
    }
    ContinuesPossible(ts, vs);
    AlwaysTraced(vs);
    ForeignDial(s, Reached(vs), c, q);
  }

  lemma {:induction false} ContinuesPossible(ts: seq<Step>, us: seq<Step>)
    requires Continues(ts, us)
    ensures Possible(us)
  {
  }

  lemma {:induction false} LastOf(s: Net, k: nat) returns (m: nat)
    requires k < |s.said|
    ensures k <= m < |s.said| && PidOf(s, m) == PidOf(s, k) && Last(s, m)
    decreases |s.said| - k
  {
    if n :| k < n < |s.said| && PidOf(s, n) == PidOf(s, k) {
      m := LastOf(s, n);
    } else {
      m := k;
    }
  }

  lemma {:induction false} OneLast(s: Net, k: nat, m: nat)
    requires k < |s.said| && m < |s.said| && PidOf(s, k) == PidOf(s, m) && Last(s, k) && Last(s, m)
    ensures k == m
  {
    hide PidOf;
  }

  /** A process whose last announcement was claimed and deleted can announce the same destination again. */
  lemma {:induction false} AgainInTurn(s: Net, m: nat)
    requires Traced(s) && m < |s.said| && Last(s, m) && Finished(s, m)
    ensures Enabled(s, Announce(s.said[m])) && InTurn(s, Announce(s.said[m]))
  {
    var b := Announce(s.said[m]);
    assert PidOf(s, m) == TaskOf(b.a).pid;
    hide TaskOf, PrintLines, Finished, PidOf, Last;
    forall k {:trigger PidOf(s, k)} | 0 <= k < |s.said| && PidOf(s, k) == TaskOf(b.a).pid && Last(s, k)
      ensures Finished(s, k)
    {
      OneLast(s, k, m);
    }
  }

  lemma {:induction false} SaysAgain(ts: seq<Step>, us: seq<Step>, c: nat, q: string, m: nat)
    requires Continues(ts, us) && Broken(Reached(us), c, q) && m < |Reached(us).said| && PidOf(Reached(us), m) == q
    requires Last(Reached(us), m) && Finished(Reached(us), m)
    ensures var vs, n := us + [Announce(Reached(us).said[m])], |Reached(us).said|;
            && Continues(ts, vs) && Traced(Reached(vs)) && Broken(Reached(vs), c, q)
            && n < |Reached(vs).said| && n in Reached(vs).queue && PidOf(Reached(vs), n) == q
  {
    var s := Reached(us);
    var b := Announce(s.said[m]);
    AlwaysTraced(us);
    AgainInTurn(s, m);
    BrokenHolder(s, c, q);
    assert TaskOf(s.said[m]).pid == q;
    hide Possible, Reached, Continues, OneHolder, InTurn, Traced, TaskOf, Finished, Last, PrintLine, Broken, Enabled;
    GoesOn(ts, us, b);
    var s1 := Reached(us + [b]);
    assert s1.queue[|s.queue|] == |s.said|;
    BrokenFollows(s, s1, c, q);
    ContinuesPossible(ts, us + [b]);
    AlwaysTraced(us + [b]);
  }

  lemma {:induction false} AgainArrives(ts: seq<Step>, us: seq<Step>, c: nat, q: string, m: nat) returns (vs: seq<Step>)
    requires Continues(ts, us) && Broken(Reached(us), c, q) && m < |Reached(us).said| && PidOf(Reached(us), m) == q
    requires Last(Reached(us), m) && Finished(Reached(us), m)
    ensures Continues(ts, vs) && Broken(Reached(vs), c, q) && q in Reached(vs).table
  {
    var s := Reached(us);
    hide Possible, Reached, Continues, Traced, Finished, Last, Broken, PidOf;
    SaysAgain(ts, us, c, q, m);
    var again := us + [Announce(s.said[m])];
    ContinuesPossible(ts, again);
    vs := QueueArrives(ts, again, |s.said|);
    ContinuesPossible(ts, vs);
    BrokenFollows(Reached(again), Reached(vs), c, q);
  }

  /** An entry of the other process can come to stand in the map. */
  lemma {:induction false} EntryArrives(ts: seq<Step>, us: seq<Step>, c: nat, q: string) returns (vs: seq<Step>)
    requires Continues(ts, us) && Broken(Reached(us), c, q) && Orderly(Reached(us)) && Kept(Reached(us))
    ensures Continues(ts, vs) && Broken(Reached(vs), c, q) && q in Reached(vs).table
  {
    var s := Reached(us);
    var k :| 0 <= k < |s.said| && PidOf(s, k) == q;
    var m := LastOf(s, k);
    assert Out(s, m) || Finished(s, m);
    AlwaysTraced(us);
    hide Possible, Reached, Continues, Orderly, Kept, Out, Finished, Last, Traced, TaskOf, Broken;
    if Out(s, m) {
      vs := OutArrives(ts, us, m);
      BrokenFollows(s, Reached(vs), c, q);
    } else {
      vs := AgainArrives(ts, us, c, q, m);
    }
  }

  /** A step in turn keeps what the discipline is for, even where it gives an inode a second holder. */
  lemma {:induction false} OrderlyLonger(ts: seq<Step>, t: Step)
    requires Possible(ts) && Behaved(ts) && Enabled(Reached(ts), t) && InTurn(Reached(ts), t)
    ensures Possible(ts + [t]) && Reached(ts + [t]) == Next(Reached(ts), t) && Continues(ts + [t], ts + [t])
    ensures Orderly(Reached(ts + [t])) && Kept(Reached(ts + [t]))
  {
    AlwaysOrderly(ts);
    AlwaysTraced(ts);
    Longer(ts, t);
    ContinuesItself(ts + [t]);
    hide *;
    StepOrderly(Reached(ts), t);
    StepKept(Reached(ts), t);
  }

  lemma {:induction false} ContinuesItself(ts: seq<Step>)
    requires Possible(ts)
    ensures Continues(ts, ts)
  {
    assert ts[..|ts|] == ts;
    hide Possible;
  }

  /** A step that gives an inode a second holder while the handler of its connection looks: in every such state, even if
      no step does so again and all announce in turn from there on, the connection can be dialed to a destination of that
      holder. */
  lemma {:induction false} SecondHolderMisdials(ts: seq<Step>, t: Step) returns (us: seq<Step>, c: nat, q: string)
    requires Possible(ts) && Behaved(ts) && Enabled(Reached(ts), t) && InTurn(Reached(ts), t)
    requires !OneHolder(Next(Reached(ts), t))
    ensures Broken(Next(Reached(ts), t), c, q) && Continues(ts + [t], us) && DialedOf(Reached(us), c, q)
    ensures !OwnDials(Reached(us))
  {
    OrderlyLonger(ts, t);
    hide *;
    c, q := BrokenSomewhere(Reached(ts + [t]));
    us := EntryArrives(ts + [t], ts + [t], c, q);
    us := BrokenDials(ts + [t], us, c, q);
  }

  // ---- The discipline is exact ----

  /** A step keeps to the discipline, which is that announcements come in turn and that no inode has a second holder
      while its handler looks, if and only if, however the run goes on within it, every connection that is dialed is
      dialed to what its own `connect` announced. */
  lemma {:induction false} DisciplineIffOwnDials(ts: seq<Step>, t: Step)
    requires Possible(ts) && Behaved(ts) && Enabled(Reached(ts), t)
    ensures InTurn(Reached(ts), t) && OneHolder(Next(Reached(ts), t)) <==>
            forall us {:trigger Continues(ts + [t], us)} :: Continues(ts + [t], us) ==> OwnDials(Reached(us))
  {
    var base := ts + [t];
    Longer(ts, t);
    assert base[..|ts|] == ts;
    if !InTurn(Reached(ts), t) {
      hide Possible, Reached, Behaved, InTurn, OneHolder, Continues, Next, Enabled;
      TooEarlyIsAnnounce(Reached(ts), t);
      var us, c := TooEarlyMisdials(ts, t.a);
      assert Reached(us).conns[c].handler.Dialed? && !OwnDials(Reached(us));
    } else if !OneHolder(Next(Reached(ts), t)) {
      hide Possible, Reached, Behaved, InTurn, OneHolder, Continues, OwnDials, Next, Enabled;
      var us, c, q := SecondHolderMisdials(ts, t);
    } else {
      assert Behaved(base);
      forall us {:trigger Continues(base, us)} | Continues(base, us)
        ensures OwnDials(Reached(us))
      {
        BehavedJoins(base, us);
        ContinuesPossible(base, us);
        hide *;
        DialsOwn(us);
      }
    }
  }

  lemma {:induction false} TooEarlyIsAnnounce(s: Net, t: Step)
    requires !InTurn(s, t)
    ensures t.Announce?
  {
  }

  /** For announcements alone. */
  lemma {:induction false} InTurnIffOwnDials(ts: seq<Step>, b: Announcement)
    requires Possible(ts) && Behaved(ts) && Enabled(Reached(ts), Announce(b))
    requires OneHolder(Next(Reached(ts), Announce(b)))
    ensures InTurn(Reached(ts), Announce(b)) <==>
            forall us {:trigger Continues(ts + [Announce(b)], us)} ::
              Continues(ts + [Announce(b)], us) ==> OwnDials(Reached(us))
  {
    hide *;
    DisciplineIffOwnDials(ts, Announce(b));
  }

  // ---- Two runs ----

  /** A process announces again before its first announcement was claimed, and the second one overwrites the first. */
  function Overwriting(a: Announcement, b: Announcement, inode: string): (ts: seq<Step>) {
    [Announce(a)] + [Accept(inode, Some(0))] + [Announce(b)] + [Parse] + [Parse]
    + [Store(Entry(TaskOf(a), 0))] + [Store(Entry(TaskOf(b), 1))]
  }

  lemma {:induction false} Announced(a: Announcement, b: Announcement, inode: string)
    requires a.ip != "" && b.ip != "" && '\n' !in a.ip && '\n' !in b.ip
    ensures var ts := [Announce(a)] + [Accept(inode, Some(0))] + [Announce(b)];
            && Possible(ts) && Reached(ts).said == [a, b] && Reached(ts).queue == [0, 1]
            && Reached(ts).tasks == {} && Reached(ts).table == map[] && Reached(ts).conns == [Conn(inode, Some(0), Looking(0))]
  {
    hide PrintLine;
    Longer([], Announce(a));
    assert [] + [Announce(a)] == [Announce(a)];
    assert Reached([Announce(a)]).said == [a];
    hide Possible, Reached;
    Longer([Announce(a)], Accept(inode, Some(0)));
    Longer([Announce(a)] + [Accept(inode, Some(0))], Announce(b));
  }

  lemma {:induction false} ParseOne(ts: seq<Step>)
    requires Possible(ts) && Reached(ts).queue != [] && Reached(ts).queue[0] < |Reached(ts).said|
    ensures var s := Reached(ts);
            && Possible(ts + [Parse]) && Reached(ts + [Parse]).said == s.said && Reached(ts + [Parse]).conns == s.conns
            && Reached(ts + [Parse]).queue == s.queue[1..] && Reached(ts + [Parse]).table == s.table
            && Reached(ts + [Parse]).tasks == s.tasks + {Entry(TaskOf(s.said[s.queue[0]]), s.queue[0])}
  {
    hide PrintLines, TaskOf, ParseLine, ReadLine;
    AlwaysTraced(ts);
    Longer(ts, Parse);
    ParseTraced(Reached(ts));
  }

  lemma {:induction false} BothParsed(a: Announcement, b: Announcement, inode: string)
    requires a.ip != "" && b.ip != "" && '\n' !in a.ip && '\n' !in b.ip
    ensures var ts := [Announce(a)] + [Accept(inode, Some(0))] + [Announce(b)] + [Parse] + [Parse];
            && Possible(ts) && Reached(ts).said == [a, b] && Reached(ts).conns == [Conn(inode, Some(0), Looking(0))]
            && Reached(ts).table == map[] && Reached(ts).tasks == {Entry(TaskOf(a), 0), Entry(TaskOf(b), 1)}
  {
    var ts := [Announce(a)] + [Accept(inode, Some(0))] + [Announce(b)];
    Announced(a, b, inode);
    hide Possible, Reached, TaskOf;
    ParseOne(ts);
    ParseOne(ts + [Parse]);
  }

  lemma {:induction false} Overwritten(a: Announcement, b: Announcement, inode: string)
    requires a.ip != "" && b.ip != "" && '\n' !in a.ip && '\n' !in b.ip && a.pid == b.pid
    ensures var ts := Overwriting(a, b, inode);
            && Possible(ts) && Reached(ts).said == [a, b] && Reached(ts).conns == [Conn(inode, Some(0), Looking(0))]
            && Reached(ts).table == map[TaskOf(b).pid := Entry(TaskOf(b), 1)]
  {
    var ts := [Announce(a)] + [Accept(inode, Some(0))] + [Announce(b)] + [Parse] + [Parse];
    assert TaskOf(a).pid == TaskOf(b).pid;
    hide Possible, Reached, TaskOf;
    BothParsed(a, b, inode);
    Longer(ts, Store(Entry(TaskOf(a), 0)));
    Longer(ts + [Store(Entry(TaskOf(a), 0))], Store(Entry(TaskOf(b), 1)));
  }

  /** A run in which one process announces twice and the first connection is dialed to the second destination. */
  lemma {:induction false} OverwrittenMisdials(a: Announcement, b: Announcement, inode: string) returns (ts: seq<Step>)
    requires a.ip != "" && b.ip != "" && '\n' !in a.ip && '\n' !in b.ip && a.pid == b.pid
    ensures Possible(ts) && |Reached(ts).conns| == 1
    ensures var s, x := Reached(ts), Reached(ts).conns[0];
            s.said == [a, b] && x.ask == Some(0) && x.handler.Dialed? && x.handler.entry.task == TaskOf(b)
  {
    Overwritten(a, b, inode);
    hide Overwriting, Possible, Reached, TaskOf;
    ts := OtherHolderMisdials(Overwriting(a, b, inode), 0, TaskOf(b).pid);
  }

  lemma {:induction false} BehavedLonger(ts: seq<Step>, t: Step)
    requires Possible(ts) && Behaved(ts) && Enabled(Reached(ts), t) && InTurn(Reached(ts), t) && OneHolder(Next(Reached(ts), t))
    ensures Possible(ts + [t]) && Reached(ts + [t]) == Next(Reached(ts), t) && Behaved(ts + [t])
  {
    Longer(ts, t);
    assert (ts + [t])[..|ts|] == ts;
    hide Possible, Reached, InTurn, OneHolder, Next;
  }

  /** While no process holds anything, no inode has two holders. */
  lemma {:induction false} BehavedUnheld(ts: seq<Step>, t: Step)
    requires Possible(ts) && Behaved(ts) && Reached(ts).holds == {} && !t.Hold? && Enabled(Reached(ts), t)
    requires t.Announce? ==> forall k {:trigger PidOf(Reached(ts), k)} :: 0 <= k < |Reached(ts).said| ==>
                               PidOf(Reached(ts), k) != TaskOf(t.a).pid
    ensures Possible(ts + [t]) && Reached(ts + [t]) == Next(Reached(ts), t) && Behaved(ts + [t]) && Reached(ts + [t]).holds == {}
  {
    hide Possible, Reached, Behaved, Finished, Last, TaskOf, ReadLine, ParseLine, PrintLine;
    BehavedLonger(ts, t);
  }

  lemma {:induction false} OtherPid(a: Announcement, b: Announcement)
    requires a.pid != b.pid
    ensures TaskOf(a).pid != TaskOf(b).pid
  {
    ValueOfDec(a.pid);
    ValueOfDec(b.pid);
  }

  lemma {:induction false} AnnouncedBehaved(a: Announcement, b: Announcement, inode: string)
    requires a.ip != "" && b.ip != "" && '\n' !in a.ip && '\n' !in b.ip && a.pid != b.pid
    ensures var ts := [Announce(a)] + [Accept(inode, Some(0))] + [Announce(b)];
            Possible(ts) && Behaved(ts) && Reached(ts).holds == {}
  {
    OtherPid(a, b);
    var ts := [Announce(a)];
    assert [] + [Announce(a)] == ts;
    BehavedUnheld([], Announce(a));
    assert Reached(ts).said == [a] && Reached(ts).conns == [];
    hide Possible, Reached, Behaved, TaskOf, PrintLine;
    BehavedUnheld(ts, Accept(inode, Some(0)));
    BehavedUnheld(ts + [Accept(inode, Some(0))], Announce(b));
  }

  /** Two processes that announced, each once, with the second one's entry in the map. */
  function TwoThreads(a: Announcement, b: Announcement, inode: string): (ts: seq<Step>) {
    [Announce(a)] + [Accept(inode, Some(0))] + [Announce(b)] + [Parse] + [Parse] + [Store(Entry(TaskOf(b), 1))]
    + [Hold(TaskOf(a).pid, inode)]
  }

  lemma {:induction false} StoredBehaved(a: Announcement, b: Announcement, inode: string)
    requires a.ip != "" && b.ip != "" && '\n' !in a.ip && '\n' !in b.ip && a.pid != b.pid
    ensures var ts := [Announce(a)] + [Accept(inode, Some(0))] + [Announce(b)] + [Parse] + [Parse] + [Store(Entry(TaskOf(b), 1))];
            && Possible(ts) && Behaved(ts) && Reached(ts).said == [a, b] && Reached(ts).holds == {}
            && Reached(ts).conns == [Conn(inode, Some(0), Looking(0))]
            && Reached(ts).table == map[TaskOf(b).pid := Entry(TaskOf(b), 1)]
  {
    var ts := [Announce(a)] + [Accept(inode, Some(0))] + [Announce(b)];
    Announced(a, b, inode);
    AnnouncedBehaved(a, b, inode);
    hide Possible, Reached, Behaved, TaskOf, ReadLine, ParseLine;
    ParseOne(ts);
    BehavedUnheld(ts, Parse);
    BehavedUnheld(ts + [Parse], Parse);
    hide Next;
    BothParsed(a, b, inode);
    hide Enabled;
    StoreUnheld(ts + [Parse] + [Parse], Entry(TaskOf(b), 1));
  }

  lemma {:induction false} StoreUnheld(ts: seq<Step>, e: Entry)
    requires Possible(ts) && Behaved(ts) && Reached(ts).holds == {} && e in Reached(ts).tasks && Reached(ts).table == map[]
    ensures var s, s' := Reached(ts), Reached(ts + [Store(e)]);
            && Possible(ts + [Store(e)]) && Behaved(ts + [Store(e)])
            && s'.said == s.said && s'.holds == {} && s'.conns == s.conns && s'.table == map[e.task.pid := e]
  {
    hide Possible, Reached, Behaved;
    BehavedUnheld(ts, Store(e));
  }

  lemma {:induction false} HoldBehaved(ts: seq<Step>, p: string, inode: string)
    requires Possible(ts) && Behaved(ts) && Reached(ts).conns == [Conn(inode, Some(0), Looking(0))]
    requires Reached(ts).said != [] && PidOf(Reached(ts), 0) == p
    ensures var s, s' := Reached(ts), Reached(ts + [Hold(p, inode)]);
            && Possible(ts + [Hold(p, inode)]) && Behaved(ts + [Hold(p, inode)])
            && s'.said == s.said && s'.conns == s.conns && s'.table == s.table && (p, inode) in s'.holds
  {
    AlwaysOrderly(ts);
    hide Possible, Reached, Behaved, TaskOf, Placed, Orderly, Kept, OneHolder;
    HoldHolder(Reached(ts), 0, p);
    BehavedLonger(ts, Hold(p, inode));
  }

  lemma {:induction false} TwoThreadsBehaved(a: Announcement, b: Announcement, inode: string)
    requires a.ip != "" && b.ip != "" && '\n' !in a.ip && '\n' !in b.ip && a.pid != b.pid
    ensures var ts, p := TwoThreads(a, b, inode), TaskOf(a).pid;
            && Possible(ts) && Behaved(ts) && Reached(ts).said == [a, b] && (p, inode) in Reached(ts).holds
            && Reached(ts).conns == [Conn(inode, Some(0), Looking(0))]
            && Reached(ts).table == map[TaskOf(b).pid := Entry(TaskOf(b), 1)]
  {
    var p := TaskOf(a).pid;
    var ts := [Announce(a)] + [Accept(inode, Some(0))] + [Announce(b)] + [Parse] + [Parse] + [Store(Entry(TaskOf(b), 1))];
    StoredBehaved(a, b, inode);
    assert TwoThreads(a, b, inode) == ts + [Hold(p, inode)];
    assert PidOf(Reached(ts), 0) == p;
    hide Possible, Reached, Behaved, TaskOf, TwoThreads;
    HoldBehaved(ts, p, inode);
  }

  /** A run in which every process announces once and in turn, and a connection is dialed to the destination of another
      process, which comes to hold its inode too. */
  lemma {:induction false} SharedInodeMisdials(a: Announcement, b: Announcement, inode: string) returns (us: seq<Step>)
    requires a.ip != "" && b.ip != "" && '\n' !in a.ip && '\n' !in b.ip && a.pid != b.pid
    ensures var ts := TwoThreads(a, b, inode);
            && Possible(ts) && Behaved(ts) && (TaskOf(a).pid, inode) in Reached(ts).holds
            && Continues(ts + [Hold(TaskOf(b).pid, inode)], us) && |Reached(us).conns| == 1 && Reached(us).said == [a, b]
    ensures var x := Reached(us).conns[0];
            x.ask == Some(0) && x.handler.Dialed? && x.handler.entry.task == TaskOf(b)
  {
    TwoThreadsBehaved(a, b, inode);
    hide Possible, Reached, Behaved, TaskOf, TwoThreads;
    us := OtherHolderMisdials(TwoThreads(a, b, inode), 0, TaskOf(b).pid);
  }
}
