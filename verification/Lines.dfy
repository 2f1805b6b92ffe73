/** The lines that the tracer writes to the FIFO and the reader at its other end, and the parsers that take the
    addresses of a connection apart. */
module Lines {
  import opened Options
  import opened Text

  /** What the tracer announces: the destination as text, its port, and the process. */
  datatype Announcement = Announcement(ip: string, port: nat, pid: nat)

  function PrintLine(a: Announcement): (line: string) {
    a.ip + ":" + Dec(a.port) + ":" + Dec(a.pid) + "\n"
  }

  function PrintLines(s: seq<Announcement>): (stream: string) {
    if s == [] then [] else PrintLine(s[0]) + PrintLines(s[1..])
  }

  /** One task for the map: a process and the address to dial for it. */
  datatype Task = Task(pid: string, addr: string)

  /** A destination in the form that Go dials. */
  function HostPort(ip: string, port: string): (addr: string) {
    if ':' in ip then "[" + ip + "]:" + port else ip + ":" + port
  }

  function TaskOf(a: Announcement): (t: Task) {
    Task(Dec(a.pid), HostPort(a.ip, Dec(a.port)))
  }

  function ParseLine(line: string): (t: Option<Task>) {
    var s := Split(line, ':');
    if |s| < 3 then None
    else if |s| > 3 then
      var pid, destPort := s[|s| - 1], s[|s| - 2];
      SplitLengths(line, ':');
      var destIP := line[..|line| - 2 - |pid| - |destPort|];
      Some(Task(pid, "[" + destIP + "]:" + destPort))
    else Some(Task(s[2], s[0] + ":" + s[1]))
  }

  function Total(r: seq<string>): (n: nat) {
    if r == [] then 0 else |r[0]| + Total(r[1..])
  }

  /** The pieces and the separators make up the whole, so the slice in the parser is in range. */
  lemma {:induction false} SplitLengths(s: string, c: char)
    ensures var r := Split(s, c);
            Total(r) + |r| - 1 == |s| && (|r| >= 2 ==> |r[|r| - 1]| + |r[|r| - 2]| + |r| - 1 <= |s|)
  {
    SplitTotal(s, c);
    LastTwo(Split(s, c));
  }

  lemma {:induction false} SplitTotal(s: string, c: char)
    ensures Total(Split(s, c)) + |Split(s, c)| - 1 == |s|
  {
    if s != [] {
      SplitTotal(s[1..], c);
      var r := Split(s[1..], c);
      assert ([[]] + r)[1..] == r;
      assert ([[s[0]] + r[0]] + r[1..])[1..] == r[1..];
    }
  }

  lemma {:induction false} LastTwo(r: seq<string>)
    ensures |r| >= 1 ==> |r[|r| - 1]| <= Total(r)
    ensures |r| >= 2 ==> |r[|r| - 1]| + |r[|r| - 2]| <= Total(r)
  {
    if |r| >= 2 {
      LastTwo(r[1..]);
    }
  }

  /** The last two pieces of a line are the port and the process, all before them is the address, and one with a colon
      is put into brackets. */
  lemma {:induction false} ParseShaped(ip: string, port: string, pid: string)
    requires ':' !in port && ':' !in pid
    ensures ParseLine(ip + ":" + port + ":" + pid) ==
              Some(Task(pid, if ':' in ip then "[" + ip + "]:" + port else ip + ":" + port))
  {
    var line := ip + ":" + port + ":" + pid;
    SplitAtLast(ip, ':', port);
    assert ip + [':'] + port == ip + ":" + port;
    SplitAtLast(ip + ":" + port, ':', pid);
    assert ip + ":" + port + [':'] + pid == line;
    assert Split(line, ':') == Split(ip, ':') + [port] + [pid];
    if ':' in ip {
      SplitMany(ip, ':');
      assert line[..|line| - 2 - |pid| - |port|] == ip;
    } else {
      SplitOne(ip, ':');
    }
  }

  /** A line with fewer separators is dropped. */
  lemma {:induction false} ParseNothing(a: string, b: string)
    requires ':' !in a && ':' !in b
    ensures ParseLine(a) == None && ParseLine(a + ":" + b) == None
  {
    SplitOne(a, ':');
    SplitAtLast(a, ':', b);
    assert a + [':'] + b == a + ":" + b;
  }

  /** One line of the tracer is parsed back to what it announces. */
  lemma {:induction false} ParsePrinted(a: Announcement)
    ensures ParseLine(a.ip + ":" + Dec(a.port) + ":" + Dec(a.pid)) == Some(TaskOf(a))
  {
    DecSafe(a.port);
    DecSafe(a.pid);
    ParseShaped(a.ip, Dec(a.port), Dec(a.pid));
    hide ParseLine, Dec;
  }

  /** bufio's ReadLine: the next line without its end, and what comes after it. */
  function ReadLine(stream: string): (r: Option<(string, string)>)
    ensures r.Some? ==> |r.value.1| < |stream|
    ensures r.None? <==> stream == []
  {
    if stream == [] then None else
      var i := IndexOf(stream, '\n');
      if i == |stream| then Some((stream, []))
      else Some((if i > 0 && stream[i - 1] == '\r' then stream[..i - 1] else stream[..i], stream[i + 1..]))
  }

  /** A line ends at its line feed, or where the stream does, and a carriage return before the line feed is dropped. */
  lemma {:induction false} ReadLineIs(line: string, rest: string)
    requires '\n' !in line
    ensures ReadLine(line + "\n" + rest) ==
              Some((if line != "" && line[|line| - 1] == '\r' then line[..|line| - 1] else line, rest))
    ensures ReadLine(line) == if line == "" then None else Some((line, ""))
  {
    var stream := line + ['\n'] + rest;
    assert stream == line + "\n" + rest;
    IndexAfter(line, '\n', rest);
    assert stream[..|line|] == line && stream[|line| + 1..] == rest;
    assert line != "" ==> stream[|line| - 1] == line[|line| - 1] && stream[..|line| - 1] == line[..|line| - 1];
    assert IndexOf(line, '\n') < |line| ==> '\n' in line;
  }

  /** The store tasks that the reader starts for what comes out of the FIFO, in the order it starts them. */
  function Tasks(stream: string): (ts: seq<Task>)
    decreases |stream|
  {
    match ReadLine(stream)
    case None => []
    case Some((line, rest)) =>
      (match ParseLine(line) case None => [] case Some(t) => [t]) + Tasks(rest)
  }

  lemma {:induction false} TasksStep(stream: string)
    ensures ReadLine(stream).None? ==> Tasks(stream) == []
    ensures ReadLine(stream).Some? ==>
              var (line, rest) := ReadLine(stream).value;
              Tasks(stream) == (match ParseLine(line) case None => [] case Some(t) => [t]) + Tasks(rest)
  {
  }

  /** The loop of the reader. */
  method UpdateProcessAddrInfo(stream: string) returns (started: seq<Task>)
    ensures started == Tasks(stream)
  {
    hide ParseLine, ReadLine, Tasks;
    started := [];
    var rest := stream;
    while true
      invariant started + Tasks(rest) == Tasks(stream)
      decreases |rest|
    {
      var r := ReadLine(rest);
      TasksStep(rest);
      if r.None? {
        break;
      }
      var line := r.value.0;
      rest := r.value.1;
      var t := ParseLine(line);
      ghost var was := started;
      if t.None? {
        continue;
      }
      started := started + [t.value];
      assert was + ([t.value] + Tasks(rest)) == started + Tasks(rest);
    }
  }

  function TasksOf(s: seq<Announcement>): (ts: seq<Task>) {
    if s == [] then [] else [TaskOf(s[0])] + TasksOf(s[1..])
  }

  lemma {:induction false} ReadPrinted(a: Announcement, rest: string)
    requires '\n' !in a.ip
    ensures ReadLine(PrintLine(a) + rest) == Some((a.ip + ":" + Dec(a.port) + ":" + Dec(a.pid), rest))
  {
    var line := a.ip + ":" + Dec(a.port) + ":" + Dec(a.pid);
    assert PrintLine(a) + rest == line + ['\n'] + rest;
    IndexAfter(line, '\n', rest);
    var stream := line + ['\n'] + rest;
    assert stream[..|line|] == line && stream[|line| + 1..] == rest;
    assert stream[|line| - 1] == Dec(a.pid)[|Dec(a.pid)| - 1];
    assert Dec(a.pid)[|Dec(a.pid)| - 1] in Dec(a.pid);
  }

  /** Whatever list of announcements the tracer writes, the reader starts exactly its store tasks. */
  lemma {:induction false} PrintedStreamParses(s: seq<Announcement>)
    requires forall a :: a in s ==> '\n' !in a.ip
    ensures Tasks(PrintLines(s)) == TasksOf(s)
  {
    if s != [] {
      ReadPrinted(s[0], PrintLines(s[1..]));
      ParsePrinted(s[0]);
      PrintedStreamParses(s[1..]);
    }
  }

  /** How taking an address apart ends; the slice expression of the IPv6 parser can be out of range. */
  datatype Endpoint = Endpoint(ip: string, port: string) | BadFormat | OutOfRange

  function SplitAddrIPv4(addr: string): (e: Endpoint) {
    var s := Split(addr, ':');
    if |s| != 2 then BadFormat
    else Endpoint(if s[0] == "" then "127.0.0.1" else s[0], s[1])
  }

  function SplitAddrIPv6(addr: string): (e: Endpoint) {
    if !HasPrefix(addr, "[") || !Contains(addr, "]:") then BadFormat
    else
      var sep := LastIndex(addr, ']');
      if sep < 1 || sep + 2 > |addr| then OutOfRange
      else Endpoint(addr[1..sep], addr[sep + 2..])
  }

  /** The IPv4 parser wants exactly one separator, and takes no address for the loopback address. */
  lemma {:induction false} SplitFourIs(ip: string, port: string, more: string)
    requires ':' !in ip && ':' !in port
    ensures SplitAddrIPv4(ip + ":" + port) == Endpoint(if ip == "" then "127.0.0.1" else ip, port)
    ensures SplitAddrIPv4(ip) == BadFormat
    ensures SplitAddrIPv4(more + ":" + ip + ":" + port) == BadFormat
  {
    SplitOne(ip, ':');
    SplitAtLast(ip, ':', port);
    assert ip + [':'] + port == ip + ":" + port;
    SplitAtLast(more + ":" + ip, ':', port);
    assert more + ":" + ip + [':'] + port == more + ":" + ip + ":" + port;
    assert ':' in more + ":" + ip;
    SplitMany(more + ":" + ip, ':');
  }

  /** The IPv6 parser wants a bracket in front and a closing bracket with a colon somewhere; it cuts at the last closing
      bracket and drops what follows it. */
  lemma {:induction false} SplitSixIs(ip: string, c: char, port: string, addr: string)
    ensures addr == "[" + ip + "]" + [c] + port && ']' !in [c] + port && Occurs(addr, "]:") ==>
              SplitAddrIPv6(addr) == Endpoint(ip, port)
    ensures SplitAddrIPv6(addr) == BadFormat <==> !("[" <= addr && Occurs(addr, "]:"))
  {
    ContainsIsOccurs(addr, "]:");
    if addr == "[" + ip + "]" + [c] + port && ']' !in [c] + port {
      assert addr[|ip| + 1] == ']';
      forall j | |ip| + 1 < j < |addr|
        ensures addr[j] != ']'
      {
        assert addr[j] == ([c] + port)[j - |ip| - 2];
      }
      assert LastIndex(addr, ']') == |ip| + 1;
      assert addr[1..|ip| + 1] == ip && addr[|ip| + 3..] == port && addr[0] == '[' && "[" <= addr;
    }
  }

  lemma {:induction false} LastBracket(ip: string, port: string)
    requires ']' !in port
    ensures LastIndex("[" + ip + "]:" + port, ']') == |ip| + 1
  {
    var addr := "[" + ip + "]:" + port;
    assert addr[|ip| + 1] == ']';
    forall j | |ip| + 1 < j < |addr|
      ensures addr[j] != ']'
    {
      assert j > |ip| + 2 ==> addr[j] == port[j - |ip| - 3];
    }
  }

  lemma {:induction false} SplitJoinedSix(ip: string, port: string)
    requires ':' in ip && ']' !in port
    ensures SplitAddrIPv6(HostPort(ip, port)) == Endpoint(ip, port)
  {
    var addr := HostPort(ip, port);
    assert "[" <= addr;
    assert addr[|ip| + 1..|ip| + 1 + 2] == "]:";
    assert OccursAt(addr, "]:", |ip| + 1);
    ContainsIsOccurs(addr, "]:");
    LastBracket(ip, port);
    assert addr[1..|ip| + 1] == ip && addr[|ip| + 3..] == port;
  }

  /** The address parsers recover what the address was put together from, each in its own family only. */
  lemma {:induction false} SplitJoined(ip: string, port: string)
    requires ip != "" && ':' !in port && ']' !in port
    ensures ':' !in ip ==> SplitAddrIPv4(HostPort(ip, port)) == Endpoint(ip, port)
    ensures ':' in ip ==> SplitAddrIPv6(HostPort(ip, port)) == Endpoint(ip, port)
    ensures ':' in ip ==> SplitAddrIPv4(HostPort(ip, port)) == BadFormat
  {
    var addr := HostPort(ip, port);
    if ':' in ip {
      SplitJoinedSix(ip, port);
      hide SplitAddrIPv6;
      var host := "[" + ip + "]";
      assert addr == host + [':'] + port;
      SplitAtLast(host, ':', port);
      assert ':' in host;
      SplitMany(host, ':');
    } else {
      assert addr == ip + [':'] + port;
      SplitAtLast(ip, ':', port);
      SplitOne(ip, ':');
    }
  }

  lemma {:induction false} OutOfRangeIff(addr: string)
    ensures SplitAddrIPv6(addr) == OutOfRange
       <==> "[" <= addr && Contains(addr, "]:") && addr[|addr| - 1] == ']'
  {
    if "[" <= addr && Contains(addr, "]:") {
      ContainsIsOccurs(addr, "]:");
      var i :| OccursAt(addr, "]:", i);
      assert addr[i] == addr[i..i + 2][0] == ']';
      assert addr[0] == "["[0];
    }
  }

  lemma {:induction false} OutOfRangeInput()
    ensures SplitAddrIPv6("[]:]") == OutOfRange
  {
    var addr := "[]:]";
    assert addr[1..1 + 2] == "]:" && OccursAt(addr, "]:", 1);
    ContainsIsOccurs(addr, "]:");
    OutOfRangeIff(addr);
  }

  /** The IPv6 parser slices out of range exactly for an address that starts with a bracket, has a closing bracket with
      a colon behind it, and ends in a closing bracket. No address put together from a host and a port is one. */
  lemma {:induction false} SplitSixOutOfRange(addr: string)
    ensures SplitAddrIPv6(addr) == OutOfRange
       <==> "[" <= addr && Contains(addr, "]:") && addr[|addr| - 1] == ']'
    ensures SplitAddrIPv6("[]:]") == OutOfRange
    ensures forall ip, port {:trigger HostPort(ip, port)} ::
              port != "" && ']' !in port ==> SplitAddrIPv6(HostPort(ip, port)) != OutOfRange
  {
    OutOfRangeIff(addr);
    OutOfRangeInput();
    forall ip, port {:trigger HostPort(ip, port)} | port != "" && ']' !in port
      ensures SplitAddrIPv6(HostPort(ip, port)) != OutOfRange
    {
      var joined := HostPort(ip, port);
      assert joined[|joined| - 1] == port[|port| - 1] && port[|port| - 1] in port;
      hide Contains, HostPort, SplitAddrIPv6;
      OutOfRangeIff(joined);
    }
  }

  lemma {:induction false} DecSafe(n: nat)
    ensures ':' !in Dec(n) && ']' !in Dec(n) && '\n' !in Dec(n)
  {
  }

  /** Different announcements never ask for the same task. */
  lemma {:induction false} TaskDetermines(a: Announcement, b: Announcement)
    requires a.ip != "" && b.ip != "" && TaskOf(a) == TaskOf(b)
    ensures a == b
  {
    DecSafe(a.port);
    DecSafe(b.port);
    SplitJoined(a.ip, Dec(a.port));
    SplitJoined(b.ip, Dec(b.port));
    ValueOfDec(a.pid);
    ValueOfDec(b.pid);
    ValueOfDec(a.port);
    ValueOfDec(b.port);
  }
}
