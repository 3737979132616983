// The conditions of the flood control's window are exact: for every other set of lines that
// may be submitted, some run from the start puts more than 1024 bytes under way.
module FloodLimits {
  import opened Basics
  import opened Queues
  import opened FloodControl
  import opened FloodProtocol

  // All lines wait in the first queue.
  predicate Solo(n: Net, waiting: seq<Line>) {
    Wf(n) && n.flood.enabled && |n.flood.queues| > 0 && n.flood.prios[0] < 100
    && n.flood.queues[0] == waiting && forall j :: 0 < j < |n.flood.queues| ==> n.flood.queues[j] == []
  }

  lemma SoloStart(prios: seq<int>)
    requires prios != [] && prios[0] < 100
    ensures Solo(Start(prios), [])
  {
  }

  lemma SoloSubmitted(n: Net, waiting: seq<Line>, line: Line)
    requires Solo(n, waiting) && |waiting| < MAX_QUEUE_SIZE
    ensures var m := Submitted(n, 0, line);
            Solo(m, waiting + [line]) && m.toServer == n.toServer && m.replies == n.replies
            && m.flood.bytesSent == n.flood.bytesSent && m.flood.plugged == n.flood.plugged
  {
  }

  lemma SoloSent(n: Net, line: Line, rest: seq<Line>)
    requires Solo(n, [line] + rest) && !n.flood.plugged
    ensures var (m, b) := (Sent(n), n.flood.bytesSent);
            m.replies == n.replies
            && if b > 0 && b + Cost(line) + Cost(FLOODMSG) > FLOODBYTES
               then Solo(m, [line] + rest) && m.flood.plugged && m.flood.bytesSent == b
                    && m.toServer == n.toServer + [FLOODMSG]
               else Solo(m, rest) && !m.flood.plugged && m.flood.bytesSent == b + Cost(line)
                    && m.toServer == n.toServer + [line]
  {
    var waiting := [line] + rest;
    assert waiting[0] == line && waiting[1..] == rest;
    assert Next(n.flood.prios, n.flood.queues, |n.flood.queues|) == Some(0);
  }

  lemma SoloServed(n: Net, waiting: seq<Line>, unknown: Line -> bool)
    requires Solo(n, waiting) && n.toServer != [] && unknown(n.toServer[0])
    ensures var m := Served(n, unknown);
            Solo(m, waiting) && m.toServer == n.toServer[1..] && m.replies == n.replies + 1 && m.flood == n.flood
  {
  }

  lemma SoloHeard(n: Net, waiting: seq<Line>)
    requires Solo(n, waiting) && n.replies > 0
    ensures var m := Heard(n);
            Solo(m, waiting) && m.toServer == n.toServer && m.replies == n.replies - 1
            && m.flood.bytesSent == 0 && !m.flood.plugged
  {
  }

  // ---- runs --------------------------------------------------------------------------------

  lemma {:induction false} RunConcat(n: Net, a: seq<Event>, b: seq<Event>, unknown: Line -> bool)
    requires Wf(n)
    ensures Run(n, a + b, unknown) == Run(Run(n, a, unknown), b, unknown)
    decreases |a|
  {
    hide Step;
    if a == [] {
      assert a + b == b;
    } else {
      assert (a + b)[0] == a[0] && (a + b)[1..] == a[1..] + b;
      RunConcat(Step(n, a[0], unknown), a[1..], b, unknown);
    }
  }

  lemma RunTwo(n: Net, a: Event, b: Event, unknown: Line -> bool)
    requires Wf(n)
    ensures Run(n, [a, b], unknown) == Step(Step(n, a, unknown), b, unknown)
  {
    hide Step;
    assert [a, b][1..] == [b] && [b][1..] == [];
    assert forall m :: Wf(m) ==> Run(m, [], unknown) == m;
  }

  lemma RunThree(n: Net, a: Event, b: Event, c: Event, unknown: Line -> bool)
    requires Wf(n)
    ensures Run(n, [a, b, c], unknown) == Step(Step(Step(n, a, unknown), b, unknown), c, unknown)
  {
    hide Step, Run;
    assert [a, b] + [c] == [a, b, c];
    RunConcat(n, [a, b], [c], unknown);
    RunTwo(n, a, b, unknown);
    RunOne(Step(Step(n, a, unknown), b, unknown), c, unknown);
  }

  lemma RunOne(n: Net, a: Event, unknown: Line -> bool)
    requires Wf(n)
    ensures Run(n, [a], unknown) == Step(n, a, unknown)
  {
    hide Step;
    assert [a][1..] == [];
  }

  lemma BytesFront(line: Line, rest: seq<Line>)
    ensures Bytes([line] + rest) == Cost(line) + Bytes(rest)
    decreases |rest|
  {
    if rest == [] {
      assert [line] + rest == [] + [line];
      BytesSnoc([], line);
    } else {
      var k := |rest| - 1;
      BytesFront(line, rest[..k]);
      assert ([line] + rest)[..k + 1] == [line] + rest[..k];
    }
  }

  lemma BytesNone()
    ensures Bytes([]) == 0
  {
  }

  // Only events that submit this line to the first queue, or none.
  predicate Only(es: seq<Event>, line: Line) {
    forall i :: 0 <= i < |es| && es[i].Submit? ==> es[i] == Submit(0, line)
  }

  // The line is submitted and sent until the control wants an answer.
  lemma FillUp(n: Net, line: Line, unknown: Line -> bool) returns (es: seq<Event>)
    requires Solo(n, []) && !n.flood.plugged && n.flood.bytesSent > 0
    ensures Only(es, line)
    ensures var (m, b) := (Run(n, es, unknown), n.flood.bytesSent);
            Solo(m, [line]) && m.flood.plugged && m.replies == n.replies
            && m.flood.bytesSent >= b && m.flood.bytesSent + Cost(line) + Cost(FLOODMSG) > FLOODBYTES
            && (m.flood.bytesSent == b || m.flood.bytesSent >= b + Cost(line))
            && n.toServer < m.toServer
            && m.toServer[|n.toServer|] == (if m.flood.bytesSent > b then line else FLOODMSG)
            && Bytes(m.toServer) == Bytes(n.toServer) + m.flood.bytesSent - b + Cost(FLOODMSG)
    decreases if n.flood.bytesSent < FLOODBYTES then FLOODBYTES - n.flood.bytesSent else 0
  {
    hide Bytes, Run, Submitted, Sent;
    var n1 := Submitted(n, 0, line);
    var n2 := Sent(n1);
    es := [Submit(0, line), Send];
    RunTwo(n, Submit(0, line), Send, unknown);
    SoloSubmitted(n, [], line);
    assert [] + [line] == [line] + [];
    SoloSent(n1, line, []);
    if n.flood.bytesSent + Cost(line) + Cost(FLOODMSG) > FLOODBYTES {
      BytesSnoc(n.toServer, FLOODMSG);
    } else {
      BytesSnoc(n.toServer, line);
      var rest := FillUp(n2, line, unknown);
      RunConcat(n, es, rest, unknown);
      es := es + rest;
    }
  }

  // ---- the two families that break the window -----------------------------------------

  lemma LongLineBreaksWindow(prios: seq<int>, line: Line, unknown: Line -> bool) returns (es: seq<Event>)
    requires prios != [] && prios[0] < 100 && |line| > 1006
    ensures Only(es, line) && Bytes(Run(Start(prios), es, unknown).toServer) > FLOODBYTES
  {
    hide Bytes, Run, Submitted, Sent;
    var n := Start(prios);
    var n2 := Sent(Submitted(n, 0, line));
    SoloStart(prios);
    SoloSubmitted(n, [], line);
    assert [] + [line] == [line] + [];
    SoloSent(Submitted(n, 0, line), line, []);
    BytesFront(line, []);
    BytesNone();
    assert [line] + [] == [] + [line];
    es := FillUp(n2, line, unknown);
    RunTwo(n, Submit(0, line), Send, unknown);
    RunConcat(n, [Submit(0, line), Send], es, unknown);
    es := [Submit(0, line), Send] + es;
  }

  // The line is sent and served, and the control fills the window up to its check.
  lemma Filled(prios: seq<int>, line: Line, unknown: Line -> bool) returns (es: seq<Event>)
    requires prios != [] && prios[0] < 100 && unknown(line)
    ensures Only(es, line)
    ensures var (m, b) := (Run(Start(prios), es, unknown), Cost(line));
            Solo(m, [line]) && m.flood.plugged && m.replies == 1
            && m.flood.bytesSent >= b && m.flood.bytesSent + b + Cost(FLOODMSG) > FLOODBYTES
            && (m.flood.bytesSent == b || m.flood.bytesSent >= 2 * b)
            && m.toServer != [] && m.toServer[0] == (if m.flood.bytesSent > b then line else FLOODMSG)
            && Bytes(m.toServer) == m.flood.bytesSent - b + Cost(FLOODMSG)
  {
    hide Bytes, Run, Submitted, Sent, Served;
    var n := Start(prios);
    var n1 := Submitted(n, 0, line);
    var n2 := Sent(n1);
    var n3 := Served(n2, unknown);
    SoloStart(prios);
    SoloSubmitted(n, [], line);
    assert [] + [line] == [line] + [];
    SoloSent(n1, line, []);
    SoloServed(n2, [], unknown);
    assert n2.toServer[1..] == [];
    BytesNone();
    RunThree(n, Submit(0, line), Send, Serve, unknown);
    es := FillUp(n3, line, unknown);
    RunConcat(n, [Submit(0, line), Send, Serve], es, unknown);
    es := [Submit(0, line), Send, Serve] + es;
  }

  // The 421 to the line passes for the answer to the check; one more line goes out, and
  // what the server reads next draws another 421.
  lemma Again(n: Net, line: Line, unknown: Line -> bool)
    requires Solo(n, [line]) && n.flood.plugged && n.replies == 1 && n.toServer != []
    requires unknown(n.toServer[0])
    ensures var m := Run(n, [Hear, Send, Serve], unknown);
            Solo(m, []) && !m.flood.plugged && m.replies == 1 && m.flood.bytesSent == Cost(line)
            && Bytes(m.toServer) == Bytes(n.toServer) + Cost(line) - Cost(n.toServer[0])
  {
    hide Bytes, Run, Heard, Sent, Served;
    SoloHeard(n, [line]);
    var n1 := Heard(n);
    var n2 := Sent(n1);
    assert [line] == [line] + [];
    SoloSent(n1, line, []);
    SoloServed(n2, [], unknown);
    RunThree(n, Hear, Send, Serve, unknown);
    BytesSnoc(n.toServer, line);
    BytesFront(n2.toServer[0], n2.toServer[1..]);
    assert [n2.toServer[0]] + n2.toServer[1..] == n2.toServer;
  }

  lemma Once(n: Net, line: Line, unknown: Line -> bool)
    requires Solo(n, [line]) && n.flood.plugged && n.replies == 1
    ensures Bytes(Run(n, [Hear, Send], unknown).toServer) == Bytes(n.toServer) + Cost(line)
  {
    hide Bytes, Run, Heard, Sent;
    SoloHeard(n, [line]);
    assert [line] == [line] + [];
    SoloSent(Heard(n), line, []);
    RunTwo(n, Hear, Send, unknown);
    BytesSnoc(n.toServer, line);
  }

  lemma UnknownLineBreaksWindow(prios: seq<int>, line: Line, unknown: Line -> bool) returns (es: seq<Event>)
    requires prios != [] && prios[0] < 100 && unknown(line) && unknown(FLOODMSG)
    ensures Only(es, line) && Bytes(Run(Start(prios), es, unknown).toServer) > FLOODBYTES
  {
    hide Bytes, Run, Solo, Step;
    var a := Filled(prios, line, unknown);
    var n := Run(Start(prios), a, unknown);
    Again(n, line, unknown);
    var n1 := Run(n, [Hear, Send, Serve], unknown);
    var b := FillUp(n1, line, unknown);
    var n2 := Run(n1, b, unknown);
    Once(n2, line, unknown);
    RunConcat(Start(prios), a, [Hear, Send, Serve], unknown);
    RunConcat(Start(prios), a + [Hear, Send, Serve], b, unknown);
    RunConcat(Start(prios), a + [Hear, Send, Serve] + b, [Hear, Send], unknown);
    es := a + [Hear, Send, Serve] + b + [Hear, Send];
  }

  predicate Allowed(es: seq<Event>, allowed: Line -> bool) {
    forall i :: 0 <= i < |es| && es[i].Submit? ==> allowed(es[i].line)
  }

  // What the server has not read yet fits in 1024 bytes in every run that submits lines of
  // a set, exactly when no line of the set is longer than 1006 bytes or draws a 421.
  lemma WindowExactly(prios: seq<int>, allowed: Line -> bool, unknown: Line -> bool)
    requires prios != [] && prios[0] < 100 && unknown(FLOODMSG)
    ensures (forall es :: Allowed(es, allowed) ==> Bytes(Run(Start(prios), es, unknown).toServer) <= FLOODBYTES)
       <==> forall line :: allowed(line) ==> |line| <= 1006 && !unknown(line)
  {
    hide Bytes, Run;
    if forall line :: allowed(line) ==> |line| <= 1006 && !unknown(line) {
      forall es | Allowed(es, allowed)
        ensures Bytes(Run(Start(prios), es, unknown).toServer) <= FLOODBYTES
      {
        WindowHolds(prios, es, unknown);
      }
    } else {
      var line :| allowed(line) && (|line| > 1006 || unknown(line));
      var es;
      if |line| > 1006 {
        es := LongLineBreaksWindow(prios, line, unknown);
      } else {
        es := UnknownLineBreaksWindow(prios, line, unknown);
      }
      assert Allowed(es, allowed);
    }
  }
}
