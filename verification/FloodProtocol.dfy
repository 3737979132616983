// The stop-and-wait window between CFloodControl and an IRC server: lines go out
// through CIRCConnection::Write, the server reads them in order, and the 421 it answers
// an unknown command with unplugs the control.
module FloodProtocol {
  import opened Basics
  import opened Queues
  import opened FloodControl

  datatype Net = Net(
    flood: Flood,
    toServer: seq<Line>,          // written, not yet read by the server
    replies: nat,                 // 421 answers not yet read by the bouncer
    since: seq<Line>,             // written since the last 421 was read
    submitted: seq<seq<Line>>,    // accepted by each queue so far
    delivered: seq<seq<Line>>)    // written from each queue so far

  datatype Event = Submit(queue: nat, line: Line) | Send | Serve | Hear

  function Bytes(lines: seq<Line>): nat {
    if lines == [] then 0 else Bytes(lines[..|lines| - 1]) + Cost(lines[|lines| - 1])
  }

  function Start(prios: seq<int>): Net {
    var none := seq(|prios|, _ => []);
    Net(Flood(0, true, false, prios, none), [], 0, [], none, none)
  }

  predicate Wf(n: Net) {
    n.flood.Wf() && |n.submitted| == |n.delivered| == |n.flood.queues|
  }

  // CQueue::QueueItem on one of the queues.
  function Submitted(n: Net, queue: nat, line: Line): (m: Net)
    requires Wf(n)
    ensures Wf(m)
  {
    if queue >= |n.flood.queues| || |n.flood.queues[queue]| >= MAX_QUEUE_SIZE then n
    else
      n.(flood := n.flood.(queues := n.flood.queues[queue := n.flood.queues[queue] + [line]]),
         submitted := n.submitted[queue := n.submitted[queue] + [line]])
  }

  // CIRCConnection::Write
  function Sent(n: Net): (m: Net)
    requires Wf(n)
    ensures Wf(m)
  {
    var (f, r) := Taken(n.flood);
    match r
    case None => n
    case Some(line) =>
      var next := Next(n.flood.prios, n.flood.queues, |n.flood.queues|);
      n.(flood := f, toServer := n.toServer + [line], since := n.since + [line],
         delivered := if f.plugged && !n.flood.plugged then n.delivered
                      else n.delivered[next.value := n.delivered[next.value] + [line]])
  }

  // The server reads one line; unknown says which commands it does not know.
  function Served(n: Net, unknown: Line -> bool): Net {
    if n.toServer == [] then n
    else n.(toServer := n.toServer[1..], replies := n.replies + if unknown(n.toServer[0]) then 1 else 0)
  }

  // The 421 branch of ParseLineArgV.
  function Heard(n: Net): Net {
    if n.replies == 0 then n
    else n.(replies := n.replies - 1, flood := n.flood.(bytesSent := 0, plugged := false), since := [])
  }

  function Step(n: Net, e: Event, unknown: Line -> bool): (m: Net)
    requires Wf(n)
    ensures Wf(m)
  {
    match e
    case Submit(queue, line) => Submitted(n, queue, line)
    case Send => Sent(n)
    case Serve => Served(n, unknown)
    case Hear => Heard(n)
  }

  function Run(n: Net, es: seq<Event>, unknown: Line -> bool): (m: Net)
    requires Wf(n)
    ensures Wf(m)
    decreases |es|
  {
    if es == [] then n else Run(Step(n, es[0], unknown), es[1..], unknown)
  }

  // ---- the invariant ----------------------------------------------------------------

  // A line the server knows, short enough for the window.
  predicate Tame(line: Line, unknown: Line -> bool) {
    |line| + Cost([]) + Cost(FLOODMSG) <= FLOODBYTES && !unknown(line)
  }

  ghost predicate AllTame(lines: seq<Line>, unknown: Line -> bool) {
    forall i :: 0 <= i < |lines| ==> Tame(lines[i], unknown)
  }

  // No line is lost, doubled or moved within its queue.
  ghost predicate Conserved(n: Net) {
    Wf(n) && forall i :: 0 <= i < |n.submitted| ==> n.delivered[i] + n.flood.queues[i] == n.submitted[i]
  }

  ghost predicate Pending(n: Net, unknown: Line -> bool) {
    Wf(n) && n.flood.enabled && forall i :: 0 <= i < |n.flood.queues| ==> AllTame(n.flood.queues[i], unknown)
  }

  ghost predicate IsSuffix(a: seq<Line>, b: seq<Line>) {
    |a| <= |b| && a == b[|b| - |a|..]
  }

  lemma SuffixTail(a: seq<Line>, b: seq<Line>)
    requires IsSuffix(a, b) && a != []
    ensures IsSuffix(a[1..], b)
  {
  }

  lemma SuffixSnoc(a: seq<Line>, b: seq<Line>, x: Line)
    requires IsSuffix(a, b)
    ensures IsSuffix(a + [x], b + [x])
  {
  }

  // Either nothing is unanswered and everything written since is counted, or exactly
  // one check is: still under way behind known lines, or answered but not yet read.
  ghost predicate Window(n: Net, unknown: Line -> bool) {
    && IsSuffix(n.toServer, n.since)
    && Bytes(n.since) <= FLOODBYTES
    && if n.flood.plugged then
         if n.replies == 0 then
           && n.toServer != [] && n.toServer[|n.toServer| - 1] == FLOODMSG
           && AllTame(n.toServer[..|n.toServer| - 1], unknown)
         else n.replies == 1 && n.toServer == []
       else
         && n.replies == 0 && AllTame(n.toServer, unknown)
         && Bytes(n.since) == n.flood.bytesSent && n.flood.bytesSent + Cost(FLOODMSG) <= FLOODBYTES
  }

  ghost predicate Inv(n: Net, unknown: Line -> bool) {
    Conserved(n) && Pending(n, unknown) && Window(n, unknown)
  }

  lemma BytesSnoc(lines: seq<Line>, line: Line)
    ensures Bytes(lines + [line]) == Bytes(lines) + Cost(line)
  {
    assert (lines + [line])[..|lines|] == lines;
  }

  lemma {:induction false} BytesSuffix(lines: seq<Line>, k: nat)
    requires k <= |lines|
    ensures Bytes(lines[k..]) <= Bytes(lines)
    decreases |lines|
  {
    if k < |lines| {
      var init, last := lines[..|lines| - 1], lines[|lines| - 1];
      BytesSuffix(init, k);
      assert lines[k..] == init[k..] + [last];
      BytesSnoc(init[k..], last);
    }
  }

  lemma StartInv(prios: seq<int>, unknown: Line -> bool)
    ensures Wf(Start(prios)) && Inv(Start(prios), unknown)
  {
    var n := Start(prios);
    assert n.toServer == n.since[0..];
  }

  lemma SubmittedInv(n: Net, queue: nat, line: Line, unknown: Line -> bool)
    requires Inv(n, unknown) && Tame(line, unknown)
    ensures Inv(Submitted(n, queue, line), unknown)
  {
    hide AllTame, Tame, IsSuffix, Bytes, Window, Conserved, Pending;
    PendingWf(n, unknown);
    SubmittedConserved(n, queue, line);
    SubmittedPending(n, queue, line, unknown);
    WindowIgnoresQueues(n, Submitted(n, queue, line), unknown);
  }

  lemma SubmittedConserved(n: Net, queue: nat, line: Line)
    requires Conserved(n)
    ensures Conserved(Submitted(n, queue, line))
  {
    var m := Submitted(n, queue, line);
    if m != n {
      assert n.delivered[queue] + (n.flood.queues[queue] + [line]) == n.submitted[queue] + [line];
    }
  }

  lemma SubmittedPending(n: Net, queue: nat, line: Line, unknown: Line -> bool)
    requires Pending(n, unknown) && Tame(line, unknown)
    ensures Pending(Submitted(n, queue, line), unknown)
  {
    hide Tame;
  }

  lemma WindowIgnoresQueues(n: Net, m: Net, unknown: Line -> bool)
    requires Window(n, unknown) && m == n.(flood := m.flood, submitted := m.submitted)
    requires m.flood == n.flood.(queues := m.flood.queues)
    ensures Window(m, unknown)
  {
    hide AllTame, IsSuffix, Bytes;
  }

  lemma TameTail(lines: seq<Line>, unknown: Line -> bool)
    requires AllTame(lines, unknown) && lines != []
    ensures AllTame(lines[1..], unknown) && !unknown(lines[0])
  {
  }

  lemma ServedWindow(n: Net, unknown: Line -> bool)
    requires Window(n, unknown) && unknown(FLOODMSG)
    ensures Window(Served(n, unknown), unknown)
  {
    hide AllTame, Bytes, IsSuffix;
    var m := Served(n, unknown);
    if n.toServer != [] {
      SuffixTail(n.toServer, n.since);
      if !n.flood.plugged {
        TameTail(n.toServer, unknown);
      } else if |n.toServer| > 1 {
        var ahead := n.toServer[..|n.toServer| - 1];
        TameTail(ahead, unknown);
        assert m.toServer[..|m.toServer| - 1] == ahead[1..] && n.toServer[0] == ahead[0];
      }
    }
  }

  lemma ServedInv(n: Net, unknown: Line -> bool)
    requires Inv(n, unknown) && unknown(FLOODMSG)
    ensures Inv(Served(n, unknown), unknown)
  {
    hide Window;
    ServedWindow(n, unknown);
  }

  lemma HeardInv(n: Net, unknown: Line -> bool)
    requires Inv(n, unknown)
    ensures Inv(Heard(n), unknown)
  {
    var m := Heard(n);
    if n.replies > 0 {
      assert m.toServer == m.since[0..];
    }
  }

  // Taking one line: which queue it comes from, and that it is tame.
  lemma TakenLine(n: Net, unknown: Line -> bool)
    requires Pending(n, unknown) && Taken(n.flood).1.Some?
    ensures var (f, r) := Taken(n.flood);
      var next := Next(n.flood.prios, n.flood.queues, |n.flood.queues|);
      && next.Some? && next.value < |n.flood.queues| && !n.flood.plugged
      && var q := n.flood.queues[next.value];
      && q != [] && Tame(q[0], unknown)
      && if f.plugged then f == n.flood.(plugged := true) && r == Some(FLOODMSG)
         else && r == Some(q[0]) && f.queues == n.flood.queues[next.value := q[1..]]
              && f == n.flood.(bytesSent := n.flood.bytesSent + Cost(q[0]), queues := f.queues)
              && (n.flood.bytesSent == 0 ||
                  n.flood.bytesSent + Cost(q[0]) + Cost(FLOODMSG) <= FLOODBYTES)
  {
    hide Tame, Cost;
  }

  lemma SentConserved(n: Net, unknown: Line -> bool)
    requires Conserved(n) && Pending(n, unknown)
    ensures Conserved(Sent(n)) && Pending(Sent(n), unknown)
  {
    hide Taken, Next, Tame;
    if Taken(n.flood).1.Some? {
      TakenLine(n, unknown);
      var i := Next(n.flood.prios, n.flood.queues, |n.flood.queues|).value;
      var q := n.flood.queues[i];
      assert q == [q[0]] + q[1..];
      assert n.delivered[i] + ([q[0]] + q[1..]) == (n.delivered[i] + [q[0]]) + q[1..];
    }
  }

  lemma TameCost(n: Net, line: Line, unknown: Line -> bool)
    ensures Tame(line, unknown) ==> Cost(line) + Cost(FLOODMSG) <= FLOODBYTES
    ensures Tame(line, unknown) && AllTame(n.toServer, unknown) ==> AllTame(n.toServer + [line], unknown)
    ensures Cost(line) > 0
  {
  }

  lemma PendingWf(n: Net, unknown: Line -> bool)
    requires Pending(n, unknown)
    ensures Wf(n) && n.flood.enabled
  {
  }

  lemma SentWindow(n: Net, unknown: Line -> bool)
    requires Pending(n, unknown) && Window(n, unknown)
    ensures Window(Sent(n), unknown)
  {
    hide Taken, Next, Bytes, IsSuffix, AllTame, Tame, Cost, Pending;
    PendingWf(n, unknown);
    if Taken(n.flood).1.Some? {
      TakenLine(n, unknown);
      var line := Taken(n.flood).1.value;
      BytesSnoc(n.since, line);
      SuffixSnoc(n.toServer, n.since, line);
      TameCost(n, line, unknown);
      assert (n.toServer + [line])[..|n.toServer|] == n.toServer;
    }
  }

  lemma StepInv(n: Net, e: Event, unknown: Line -> bool)
    requires Inv(n, unknown) && unknown(FLOODMSG)
    requires e.Submit? ==> Tame(e.line, unknown)
    ensures Inv(Step(n, e, unknown), unknown)
  {
    hide Conserved, Pending, Window;
    match e
    case Submit(queue, line) => SubmittedInv(n, queue, line, unknown);
    case Send =>
      SentConserved(n, unknown);
      SentWindow(n, unknown);
    case Serve => ServedInv(n, unknown);
    case Hear => HeardInv(n, unknown);
  }

  lemma {:induction false} RunInv(n: Net, es: seq<Event>, unknown: Line -> bool)
    requires Inv(n, unknown) && unknown(FLOODMSG)
    requires forall i :: 0 <= i < |es| && es[i].Submit? ==> Tame(es[i].line, unknown)
    ensures Inv(Run(n, es, unknown), unknown)
    decreases |es|
  {
    if es != [] {
      hide Inv, Step, Tame;
      StepInv(n, es[0], unknown);
      RunInv(Step(n, es[0], unknown), es[1..], unknown);
    }
  }

  // How many checks are not answered yet, as far as the bouncer knows.
  function Checks(lines: seq<Line>): nat {
    if lines == [] then 0
    else Checks(lines[..|lines| - 1]) + if lines[|lines| - 1] == FLOODMSG then 1 else 0
  }

  lemma {:induction false} NoChecks(lines: seq<Line>, unknown: Line -> bool)
    requires AllTame(lines, unknown) && unknown(FLOODMSG)
    ensures Checks(lines) == 0
  {
    if lines != [] {
      NoChecks(lines[..|lines| - 1], unknown);
      assert Tame(lines[|lines| - 1], unknown);
    }
  }

  lemma TameWhen(line: Line, unknown: Line -> bool)
    ensures Tame(line, unknown) <==> |line| <= 1006 && !unknown(line)
  {
  }

  lemma InvMeans(n: Net, unknown: Line -> bool)
    requires Inv(n, unknown) && unknown(FLOODMSG)
    ensures Wf(n) && Checks(n.toServer) + n.replies <= 1
    ensures Bytes(n.toServer) <= Bytes(n.since) <= FLOODBYTES
    ensures forall i :: 0 <= i < |n.submitted| ==> n.delivered[i] + n.flood.queues[i] == n.submitted[i]
  {
    hide AllTame, Pending, Bytes;
    BytesSuffix(n.since, |n.since| - |n.toServer|);
    if n.flood.plugged && n.replies == 0 {
      NoChecks(n.toServer[..|n.toServer| - 1], unknown);
    } else {
      NoChecksAtAll(n, unknown);
    }
  }

  lemma NoChecksAtAll(n: Net, unknown: Line -> bool)
    requires Window(n, unknown) && unknown(FLOODMSG) && (n.flood.plugged ==> n.replies > 0)
    ensures Checks(n.toServer) == 0
  {
    NoChecks(n.toServer, unknown);
  }

  // In every run in which the server answers 421 to no line that was submitted and no
  // line is longer than 1006 bytes: at most one check is unanswered, what was written
  // since the last answer, check and line ends included, fits in 1024 bytes, so what the
  // server has not read yet does too, and every queue's lines go out in order.
  lemma WindowHolds(prios: seq<int>, es: seq<Event>, unknown: Line -> bool)
    requires unknown(FLOODMSG)
    requires forall i :: 0 <= i < |es| && es[i].Submit? ==> |es[i].line| <= 1006 && !unknown(es[i].line)
    ensures Wf(Start(prios))
    ensures var n := Run(Start(prios), es, unknown);
      && Checks(n.toServer) + n.replies <= 1
      && Bytes(n.toServer) <= Bytes(n.since) <= FLOODBYTES
      && forall i :: 0 <= i < |n.submitted| ==> n.delivered[i] + n.flood.queues[i] == n.submitted[i]
  {
    hide *;
    StartInv(prios, unknown);
    assert forall i :: 0 <= i < |es| && es[i].Submit? ==> Tame(es[i].line, unknown) by {
      forall i | 0 <= i < |es| && es[i].Submit?
        ensures Tame(es[i].line, unknown)
      {
        TameWhen(es[i].line, unknown);
      }
    }
    RunInv(Start(prios), es, unknown);
    InvMeans(Run(Start(prios), es, unknown), unknown);
  }

  // A line leaves a queue only while every queue of smaller priority value is empty.
  lemma PriorityOrder(f: Flood)
    requires f.Wf() && Taken(f).1.Some? && !Taken(f).0.plugged
    ensures Next(f.prios, f.queues, |f.queues|).Some?
    ensures var i := Next(f.prios, f.queues, |f.queues|).value;
      && f.queues[i] != [] && Taken(f).1 == Some(f.queues[i][0])
      && Taken(f).0.queues == f.queues[i := f.queues[i][1..]]
      && forall j :: 0 <= j < |f.queues| && f.prios[j] < f.prios[i] ==> f.queues[j] == []
  {
  }
}
