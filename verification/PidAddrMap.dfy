/** The shared map from processes to destinations, and one handler's search in it while nothing else runs. */
module PidAddrMap {

  datatype Op = Stored(pid: string, addr: string) | Removed(pid: string)

  /** What a history of calls leaves for a process: the address of the last store for it that no deletion followed. */
  ghost predicate Stands(history: seq<Op>, pid: string, addr: string) {
    exists i {:trigger history[i]} :: 0 <= i < |history| && history[i] == Stored(pid, addr)
      && forall j {:trigger history[j]} :: i < j < |history| ==> history[j].pid != pid
  }

  lemma {:induction false} StandsAfter(history: seq<Op>, op: Op, pid: string, addr: string)
    ensures Stands(history + [op], pid, addr) <==> if op.pid == pid then op == Stored(pid, addr) else Stands(history, pid, addr)
  {
    var h, n := history + [op], |history|;
    assert h[n] == op && forall j :: 0 <= j < n ==> h[j] == history[j];
    if Stands(history, pid, addr) && op.pid != pid {
      var i :| 0 <= i < n && history[i] == Stored(pid, addr) && forall j {:trigger history[j]} :: i < j < n ==> history[j].pid != pid;
      assert h[i] == Stored(pid, addr);
    }
  }

  class PidAddr {
    var pidAddr: map<string, string>
    ghost var history: seq<Op>

    /** The map shows, for every process, what stands after all calls so far. */
    ghost predicate Valid()
      reads this
    {
      forall p, a {:trigger Stands(history, p, a)} :: Stands(history, p, a) <==> p in pidAddr && pidAddr[p] == a
    }

    constructor ()
      ensures Valid() && history == [] && pidAddr == map[]
    {
      pidAddr, history := map[], [];
    }

    method StorePidAddr(pid: string, addr: string)
      requires Valid()
      modifies this
      ensures Valid() && history == old(history) + [Stored(pid, addr)] && pidAddr == old(pidAddr)[pid := addr]
    {
      pidAddr := pidAddr[pid := addr];
      history := history + [Stored(pid, addr)];
      forall p, a
        ensures Stands(history, p, a) <==> Stands(old(history) + [Stored(pid, addr)], p, a)
        ensures Stands(history, p, a) <==> if p == pid then a == addr else Stands(old(history), p, a)
      {
        StandsAfter(old(history), Stored(pid, addr), p, a);
      }
    }

    method LoadPidAddr(pid: string) returns (addr: string, ok: bool)
      requires Valid()
      ensures ok ==> Stands(history, pid, addr)
      ensures !ok ==> addr == "" && forall a :: !Stands(history, pid, a)
    {
      ok := pid in pidAddr;
      addr := if ok then pidAddr[pid] else "";
    }

    method DeletePidAddr(pid: string)
      requires Valid()
      modifies this
      ensures Valid() && history == old(history) + [Removed(pid)] && pidAddr == old(pidAddr) - {pid}
    {
      pidAddr := pidAddr - {pid};
      history := history + [Removed(pid)];
      forall p, a
        ensures Stands(history, p, a) <==> p != pid && Stands(old(history), p, a)
      {
        StandsAfter(old(history), Removed(pid), p, a);
      }
    }

    /** The entries are visited in any order, each at most once, until `f` says to stop. */
    method RangePidAddr(f: (string, string) -> bool) returns (visited: seq<string>)
      ensures forall i, j :: 0 <= i < j < |visited| ==> visited[i] != visited[j]
      ensures forall i :: 0 <= i < |visited| ==> visited[i] in pidAddr && (i < |visited| - 1 ==> f(visited[i], pidAddr[visited[i]]))
      ensures (visited != [] && !f(visited[|visited| - 1], pidAddr[visited[|visited| - 1]])) ||
              (forall p :: p in pidAddr ==> p in visited && f(p, pidAddr[p]))
    {
      visited := [];
      var left := pidAddr.Keys;
      while left != {}
        invariant left <= pidAddr.Keys
        invariant forall p :: p in pidAddr ==> (p in visited <==> p !in left)
        invariant forall i, j :: 0 <= i < j < |visited| ==> visited[i] != visited[j]
        invariant forall i :: 0 <= i < |visited| ==> visited[i] in pidAddr && f(visited[i], pidAddr[visited[i]])
        decreases |left|
      {
        var p :| p in left;
        left := left - {p};
        visited := visited + [p];
        if !f(p, pidAddr[p]) {
          return;
        }
      }
    }

    /** `holders` are the processes that hold the inode of the connection, at each of the three tries. */
    method GetPidByAddr(holders: seq<set<string>>) returns (pid: string, destAddr: string)
      requires Valid() && |holders| == 3 && forall i :: 0 <= i < 3 ==> "" !in holders[i]
      modifies this
      ensures Valid()
      ensures pid == "" ==> pidAddr == old(pidAddr) && forall p, i :: p in pidAddr && 0 <= i < 3 ==> p !in holders[i]
      ensures pid != "" ==>
                && pid in old(pidAddr) && destAddr == old(pidAddr)[pid] && pidAddr == old(pidAddr) - {pid}
                && exists i :: 0 <= i < 3 && pid in holders[i] && forall p, j :: p in old(pidAddr) && 0 <= j < i ==> p !in holders[j]
    {
      pid, destAddr := "", "";
      ghost var found := 0;
      for i := 0 to 3
        invariant pid == "" && pidAddr == old(pidAddr) && Valid()
        invariant forall p, j :: p in pidAddr && 0 <= j < i ==> p !in holders[j]
      {
        var visited := RangePidAddr((p, _) => p !in holders[i]);
        if visited != [] && visited[|visited| - 1] in holders[i] {
          pid := visited[|visited| - 1];
          destAddr := pidAddr[pid];
          found := i;
          break;
        }
      }
      if pid != "" {
        DeletePidAddr(pid);
      }
    }
  }
}
