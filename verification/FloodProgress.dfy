// What the flood control hands out at each moment, and that everything submitted gets out.
module FloodProgress {
  import opened Basics
  import opened Queues
  import opened FloodControl
  import opened FloodProtocol
  import FloodLimits

  // A queue that is next gives its first line, unless that would not leave room for the
  // check in a window of 1024 bytes that has been begun; then the check goes out and nothing
  // more until the answer. A peek shows the line in either case.
  lemma NextGoesOut(f: Flood, i: nat)
    requires f.Wf() && IsNext(f.prios, f.queues, |f.queues|, i) && !(f.enabled && f.plugged)
    ensures var (line, rest) := (f.queues[i][0], f.queues[i][1..]);
      && Peeked(f) == Some(line)
      && Taken(f) == if f.enabled && f.bytesSent > 0 && f.bytesSent + |line| + 2 + 16 > 1024
                     then (f.(plugged := true), Some("SBNCFLOODCHECK"))
                     else (f.(bytesSent := f.bytesSent + |line| + 2, queues := f.queues[i := rest]), Some(line))
  {
    assert Next(f.prios, f.queues, |f.queues|) == Some(i);
  }

  // Nothing goes out only while the answer is awaited or no queue is next.
  lemma NothingGoesOut(f: Flood)
    requires f.Wf()
    ensures Taken(f).1 == None <==> (f.enabled && f.plugged) || NoneNext(f.prios, f.queues, |f.queues|)
    ensures Taken(f).1 == None ==> Taken(f).0 == f && Peeked(f) == None
    ensures NoneNext(f.prios, f.queues, |f.queues|) <==> forall i: nat :: !IsNext(f.prios, f.queues, |f.queues|, i)
  {
    var r := Next(f.prios, f.queues, |f.queues|);
    if r.Some? {
      assert IsNext(f.prios, f.queues, |f.queues|, r.value);
    }
  }

  // ---- the number of lines waiting ------------------------------------------------------

  lemma {:induction false} TotalIsNone(queues: seq<seq<Line>>)
    ensures Total(queues) == 0 <==> forall i :: 0 <= i < |queues| ==> queues[i] == []
  {
    if queues != [] {
      var init := queues[..|queues| - 1];
      TotalIsNone(init);
      assert forall i :: 0 <= i < |init| ==> init[i] == queues[i];
    }
  }

  lemma {:induction false} TotalReplaced(queues: seq<seq<Line>>, i: nat, q: seq<Line>)
    requires i < |queues|
    ensures Total(queues[i := q]) + |queues[i]| == Total(queues) + |q|
  {
    var k := |queues| - 1;
    if i == k {
      assert queues[i := q][..k] == queues[..k];
    } else {
      assert queues[i := q][..k] == queues[..k][i := q];
      TotalReplaced(queues[..k], i, q);
    }
  }

  // ---- everything gets out --------------------------------------------------------------

  // Every queue has a priority that the scan looks at.
  predicate Reachable(n: Net) {
    forall i :: 0 <= i < |n.flood.prios| ==> n.flood.prios[i] < 100
  }

  // How near the control is to handing out a line.
  function Stage(n: Net): nat {
    if n.flood.plugged then (if n.replies > 0 then 1 else 2) else if n.flood.bytesSent == 0 then 0 else 3
  }

  // The step to take from a state with lines waiting.
  function Turn(n: Net): Event {
    if !n.flood.plugged then Send else if n.replies > 0 then Hear else Serve
  }

  lemma TurnHelps(n: Net, unknown: Line -> bool)
    requires Inv(n, unknown) && unknown(FLOODMSG) && Reachable(n) && Total(n.flood.queues) > 0
    ensures var m := Step(n, Turn(n), unknown);
      && Reachable(m) && m.submitted == n.submitted
      && (Total(m.flood.queues) < Total(n.flood.queues)
          || (Total(m.flood.queues) == Total(n.flood.queues)
              && (Stage(m) < Stage(n) || (Stage(m) == Stage(n) && |m.toServer| < |n.toServer|))))
  {
    hide Total, AllTame, Bytes, IsSuffix, Tame;
    TotalIsNone(n.flood.queues);
    if n.flood.plugged {
      PluggedHelps(n, unknown);
    } else {
      SendHelps(n, unknown);
    }
  }

  lemma PluggedHelps(n: Net, unknown: Line -> bool)
    requires Wf(n) && Window(n, unknown) && unknown(FLOODMSG) && n.flood.plugged
    ensures var m := Step(n, Turn(n), unknown);
      && m.flood.queues == n.flood.queues && m.flood.prios == n.flood.prios && m.submitted == n.submitted
      && (Stage(m) < Stage(n) || (Stage(m) == Stage(n) && |m.toServer| < |n.toServer|))
  {
    hide AllTame, Bytes, IsSuffix;
  }

  lemma SendHelps(n: Net, unknown: Line -> bool)
    requires Wf(n) && n.flood.enabled && !n.flood.plugged && Reachable(n)
    requires exists i :: 0 <= i < |n.flood.queues| && n.flood.queues[i] != []
    ensures var m := Step(n, Send, unknown);
      && m.flood.prios == n.flood.prios && m.submitted == n.submitted
      && (Total(m.flood.queues) < Total(n.flood.queues)
          || (m.flood.queues == n.flood.queues && m.flood.plugged && m.replies == n.replies
              && n.flood.bytesSent > 0))
  {
    hide Total, Taken, Next;
    var f := n.flood;
    NothingGoesOut(f);
    var i: nat :| IsNext(f.prios, f.queues, |f.queues|, i);
    NextGoesOut(f, i);
    TotalReplaced(f.queues, i, f.queues[i][1..]);
  }

  // From every state that runs of tame lines reach, sending, serving and hearing for long
  // enough delivers all that was submitted.
  lemma Drain(n: Net, unknown: Line -> bool) returns (es: seq<Event>)
    requires Inv(n, unknown) && unknown(FLOODMSG) && Reachable(n)
    ensures forall k :: 0 <= k < |es| ==> !es[k].Submit?
    ensures var m := Run(n, es, unknown);
      && m.submitted == n.submitted && m.delivered == n.submitted
      && forall i :: 0 <= i < |m.flood.queues| ==> m.flood.queues[i] == []
    decreases Total(n.flood.queues), Stage(n), |n.toServer|
  {
    hide Total, Stage, Window, Pending, Turn, Reachable;
    if Total(n.flood.queues) == 0 {
      es := [];
      TotalIsNone(n.flood.queues);
      AllDelivered(n);
    } else {
      var e := Turn(n);
      TurnHelps(n, unknown);
      TurnIsNoSubmit(n);
      StepInv(n, e, unknown);
      var more := Drain(Step(n, e, unknown), unknown);
      es := [e] + more;
      assert es[1..] == more;
    }
  }

  lemma TurnIsNoSubmit(n: Net)
    ensures !Turn(n).Submit?
  {
  }

  lemma AllDelivered(n: Net)
    requires Conserved(n) && forall i :: 0 <= i < |n.flood.queues| ==> n.flood.queues[i] == []
    ensures n.delivered == n.submitted
  {
    forall i | 0 <= i < |n.submitted|
      ensures n.delivered[i] == n.submitted[i]
    {
      assert n.delivered[i] + [] == n.submitted[i];
    }
  }

  // Whatever tame lines were submitted on the way, every run can be continued until each
  // queue's lines have all gone out, in order.
  lemma EverythingGetsOut(prios: seq<int>, es: seq<Event>, unknown: Line -> bool) returns (more: seq<Event>)
    requires unknown(FLOODMSG) && forall i :: 0 <= i < |prios| ==> prios[i] < 100
    requires forall i :: 0 <= i < |es| && es[i].Submit? ==> |es[i].line| <= 1006 && !unknown(es[i].line)
    ensures forall k :: 0 <= k < |more| ==> !more[k].Submit?
    ensures Run(Start(prios), es + more, unknown).delivered == Run(Start(prios), es, unknown).submitted
  {
    hide Run, Inv;
    StartInv(prios, unknown);
    RunInv(Start(prios), es, unknown);
    PriosStay(Start(prios), es, unknown);
    more := Drain(Run(Start(prios), es, unknown), unknown);
    FloodLimits.RunConcat(Start(prios), es, more, unknown);
  }

  lemma {:induction false} PriosStay(n: Net, es: seq<Event>, unknown: Line -> bool)
    requires Wf(n)
    ensures Run(n, es, unknown).flood.prios == n.flood.prios
    decreases |es|
  {
    if es != [] {
      PriosStay(Step(n, es[0], unknown), es[1..], unknown);
    }
  }
}
