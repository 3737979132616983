// src/FloodControl.cpp: the gate between the prioritised queues and the IRC server.
module FloodControl {
  import opened Basics
  import opened Queues

  const FLOODMSG: Line := "SBNCFLOODCHECK"
  const FLOODBYTES: nat := 1024

  // The state of a flood control object, its queues by their contents.
  datatype Flood = Flood(bytesSent: nat, enabled: bool, plugged: bool, prios: seq<int>, queues: seq<seq<Line>>) {
    predicate Wf() {
      |prios| == |queues|
    }
  }

  // Queue i is next: it has a line, a usable priority, and no other queue with a line
  // comes before it.
  predicate IsNext(prios: seq<int>, queues: seq<seq<Line>>, n: nat, i: nat)
    requires |prios| == |queues| && n <= |queues|
  {
    && i < n && queues[i] != [] && prios[i] < 100
    && forall j :: 0 <= j < n && queues[j] != [] ==> prios[i] < prios[j] || (prios[i] == prios[j] && i <= j)
  }

  predicate NoneNext(prios: seq<int>, queues: seq<seq<Line>>, n: nat)
    requires |prios| == |queues| && n <= |queues|
  {
    forall j :: 0 <= j < n && queues[j] != [] ==> prios[j] >= 100
  }

  // The queue to take from among the first n.
  function Next(prios: seq<int>, queues: seq<seq<Line>>, n: nat): (r: Option<nat>)
    requires |prios| == |queues| && n <= |queues|
    ensures match r
            case Some(i) => IsNext(prios, queues, n, i)
            case None => NoneNext(prios, queues, n)
  {
    if n == 0 then None
    else
      match Next(prios, queues, n - 1)
      case None => if queues[n - 1] != [] && prios[n - 1] < 100 then Some(n - 1) else None
      case Some(i) => if queues[n - 1] != [] && prios[n - 1] < prios[i] then Some(n - 1) else Some(i)
  }

  // A line costs its length and CR LF.
  function Cost(line: Line): nat {
    |line| + 2
  }

  // What DequeueItem(false) returns and leaves behind.
  function Taken(f: Flood): (Flood, Option<Line>)
    requires f.Wf()
  {
    if f.enabled && f.plugged then (f, None)
    else
      match Next(f.prios, f.queues, |f.queues|)
      case None => (f, None)
      case Some(i) =>
        var line := f.queues[i][0];
        if f.enabled && f.bytesSent > 0 && f.bytesSent + Cost(line) + Cost(FLOODMSG) > FLOODBYTES then
          (f.(plugged := true), Some(FLOODMSG))
        else
          (f.(bytesSent := f.bytesSent + Cost(line), queues := f.queues[i := f.queues[i][1..]]), Some(line))
  }

  // What DequeueItem(true) returns.
  function Peeked(f: Flood): Option<Line>
    requires f.Wf()
  {
    if f.enabled && f.plugged then None
    else
      match Next(f.prios, f.queues, |f.queues|)
      case None => None
      case Some(i) => Some(f.queues[i][0])
  }

  function Total(queues: seq<seq<Line>>): nat {
    if queues == [] then 0 else Total(queues[..|queues| - 1]) + |queues[|queues| - 1]|
  }

  datatype IrcQueue = IrcQueue(priority: int, queue: Queue)

  class Control {
    var queues: seq<IrcQueue>
    var bytesSent: nat
    var enabled: bool
    var plugged: bool
    ghost var repr: set<object>       // the attached queues and their arrays

    ghost predicate Valid()
      reads this`queues, this`repr, repr
    {
      && this !in repr
      && (forall i :: 0 <= i < |queues| ==>
           queues[i].queue in repr && queues[i].queue.items in repr && queues[i].queue.Valid())
      && (forall i, j :: 0 <= i < j < |queues| ==>
           queues[i].queue != queues[j].queue && queues[i].queue.items != queues[j].queue.items)
    }

    ghost function Lines(): (r: seq<seq<Line>>)
      requires Valid()
      reads this`queues, this`repr, repr
      ensures |r| == |queues| && forall i :: 0 <= i < |queues| ==> r[i] == queues[i].queue.Lines()
    {
      var qs, objects := queues, repr;
      seq(|qs|, i requires 0 <= i < |qs| && qs[i].queue in objects reads objects => qs[i].queue.Lines())
    }

    ghost function View(): (f: Flood)
      requires Valid()
      reads this, repr
      ensures f.Wf()
    {
      var qs := queues;
      Flood(bytesSent, enabled, plugged, seq(|qs|, i requires 0 <= i < |qs| => qs[i].priority), Lines())
    }

    constructor ()
      ensures Valid() && View() == Flood(0, true, false, [], [])
    {
      queues, bytesSent, enabled, plugged, repr := [], 0, true, false, {};
    }

    method AttachInputQueue(queue: Queue, priority: int)
      requires Valid() && queue.Valid()
      requires forall i :: 0 <= i < |queues| ==> queues[i].queue != queue && queues[i].queue.items != queue.items
      modifies this
      ensures Valid() && queues == old(queues) + [IrcQueue(priority, queue)]
      ensures View() == old(View()).(prios := old(View()).prios + [priority], queues := old(View()).queues + [queue.Lines()])
    {
      queues := queues + [IrcQueue(priority, queue)];
      repr := repr + {queue, queue.items};
    }

    lemma QueueAt(i: nat)
      requires Valid() && i < |queues|
      ensures queues[i].queue.Valid() && |View().queues| == |View().prios| == |queues|
      ensures View().queues[i] == queues[i].queue.Lines() && View().prios[i] == queues[i].priority
    {
    }

    // The scan of DequeueItem.
    method FindNext() returns (that: Option<nat>)
      requires Valid()
      ensures that == Next(View().prios, View().queues, |View().queues|)
      ensures that.Some? ==> that.value < |queues| && View().queues[that.value] != []
    {
      hide Valid, IsNext, NoneNext, View, Lines, Queue.Valid, Queue.Lines;
      ghost var f := View();
      Sizes();
      var lowest := 100;
      that := None;
      for i := 0 to |queues|
        invariant that == Next(f.prios, f.queues, i)
        invariant match that
                  case None => lowest == 100
                  case Some(k) => k < i && lowest == f.prios[k] < 100 && f.queues[k] != []
      {
        QueueAt(i);
        if queues[i].priority < lowest {
          var n := queues[i].queue.GetLength();
          if n > 0 {
            lowest, that := queues[i].priority, Some(i);
          }
        }
      }
    }

    lemma Sizes()
      requires Valid()
      ensures |View().queues| == |View().prios| == |queues|
    {
    }

    // Takes one line from the i-th queue; the others are not touched.
    method TakeFrom(i: nat) returns (line: Line)
      requires Valid() && i < |queues| && View().queues[i] != []
      modifies repr
      ensures Valid() && queues == old(queues) && repr == old(repr) && this !in repr
      ensures line == old(View()).queues[i][0]
      ensures View() == old(View()).(queues := old(View()).queues[i := old(View()).queues[i][1..]])
    {
      hide Queue.Valid, Queue.Lines;
      var item := queues[i].queue.DequeueItem();
      line := item.value;
      assert Lines() == old(Lines())[i := old(Lines())[i][1..]];
    }

    method DequeueItem(peek: bool) returns (r: Option<Line>)
      requires Valid()
      modifies this`bytesSent, this`plugged, repr
      ensures Valid() && queues == old(queues) && repr == old(repr)
      ensures if peek then r == Peeked(old(View())) && View() == old(View())
              else (View(), r) == Taken(old(View()))
    {
      hide Valid, Next, IsNext, NoneNext, Lines, Queue.Valid, Queue.Lines;
      ghost var f := View();
      if enabled && plugged {
        return None;
      }
      var that := FindNext();
      if that == None {
        return None;
      }
      var i := that.value;
      QueueAt(i);
      var item := queues[i].queue.PeekItem();
      if peek {
        return item;
      }
      if enabled && bytesSent > 0 && bytesSent + |item.value| + 2 + |FLOODMSG| + 2 > FLOODBYTES {
        Plug();
        return Some(FLOODMSG);
      }
      var line := TakeFrom(i);
      bytesSent := bytesSent + |line| + 2;
      return Some(line);
    }

    method Plug()
      requires Valid()
      modifies this`plugged
      ensures Valid() && View() == old(View()).(plugged := true)
    {
      plugged := true;
    }

    method Unplug()
      requires Valid()
      modifies this`plugged, this`bytesSent
      ensures Valid() && View() == old(View()).(bytesSent := 0, plugged := false)
    {
      bytesSent, plugged := 0, false;
    }

    method GetRealLength() returns (n: nat)
      requires Valid()
      ensures n == Total(View().queues)
    {
      hide Queue.Valid, Queue.Lines;
      n := 0;
      for i := 0 to |queues|
        invariant n == Total(View().queues[..i])
      {
        var k := queues[i].queue.GetLength();
        assert View().queues[..i + 1][..i] == View().queues[..i];
        n := n + k;
      }
      assert View().queues[..|queues|] == View().queues;
    }

    // Whether a line could be sent now.
    method GetQueueSize() returns (n: nat)
      requires Valid()
      ensures n == if !plugged && Total(View().queues) > 0 then 1 else 0
    {
      if plugged {
        return 0;
      }
      var k := GetRealLength();
      return if k > 0 then 1 else 0;
    }
  }
}
