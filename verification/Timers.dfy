// src/Timer.cpp: timers in a list with deferred deletion, and the cached time of the
// next call that the main loop sleeps until.
module Timers {
  import opened LinkedList

  // time_t. Zero is kept free: in g_NextCall it means that no call is known.
  type Time = t: int | t > 0 witness 1

  class Timer {
    const interval: nat
    const repeat: bool
    const hasProc: bool        // m_Proc != NULL
    var next: Time
    var link: Link?<Timer>

    constructor (interval: nat, repeat: bool, hasProc: bool)
      ensures this.interval == interval && this.repeat == repeat && this.hasProc == hasProc
      ensures link == null
    {
      this.interval, this.repeat, this.hasProc := interval, repeat, hasProc;
      link := null;
    }

    // The shapes that Call either destroys or reschedules once they are due. The other
    // two, a one-shot timer with an interval but no function and a repeating one with
    // interval 0, stay in the list with a time in the past.
    predicate Sound() {
      if hasProc then repeat ==> interval > 0 else interval > 0 ==> repeat
    }

    // The shapes that Call destroys whatever the function returns.
    predicate Ends() {
      if hasProc then !repeat else interval == 0
    }
  }

  // One thing a timer function may do before it returns. k counts the timers in the
  // list: a destroyed one is nobody's to touch, and a function does not destroy the
  // very timer that is calling it.
  datatype Action =
    | Create(interval: nat, repeat: bool, hasProc: bool)
    | Destroy(k: nat)
    | Reschedule(k: nat, next: Time)

  // What one call of a timer function does and returns.
  datatype Reply = Reply(actions: seq<Action>, again: bool)

  // The functions touch no timer.
  predicate Quiet(replies: seq<Reply>) {
    forall i :: 0 <= i < |replies| ==> replies[i].actions == []
  }

  // And they all return true.
  predicate Steady(replies: seq<Reply>) {
    forall i :: 0 <= i < |replies| ==> replies[i] == Reply([], true)
  }

  // What happens to the timers between two passes, and the pass itself.
  datatype Event = Tick(now: Time) | Fire(replies: seq<Reply>) | Do(action: Action)

  // The timers of the list and their times, the functions called so far, and the time.
  datatype Snapshot = Snapshot(all: seq<Timer>, nexts: seq<int>, calls: seq<Timer>, now: Time)

  // A turn of a pass: the place of the timer, how the pass began, whether its function
  // touched no timer, and whether it returned true as well.
  datatype Visited = Visited(p: nat, start: Snapshot, quiet: bool, steady: bool)

  // The globals g_Timers, g_NextCall and g_CurrentTime.
  class Pool {
    const timers: List<Timer>
    var nextCall: nat
    var now: Time
    var all: seq<Timer>                // the timers linked, destroyed ones included
    var destroyed: set<Timer>          // (both stand for the pointers that callers keep)
    ghost var calls: seq<Timer>        // whose function was called, in order

    ghost predicate Valid()
      reads this`all, this`destroyed, timers, timers.nodes, all
    {
      && timers.Valid() && |all| == |timers.nodes|
      && forall i :: 0 <= i < |all| ==>
           && timers.nodes[i].value == all[i] && all[i].link == timers.nodes[i]
           && (timers.nodes[i] in timers.dead <==> all[i] in destroyed)
    }

    ghost predicate Covered(t: Timer)
      reads this`nextCall, t
    {
      0 < nextCall <= t.next
    }

    // No timer of a sound shape among the first n is due before the next call.
    ghost predicate CoversFirst(n: nat)
      reads this`nextCall, this`all, this`destroyed, all
    {
      forall i :: 0 <= i < n && i < |all| && all[i] !in destroyed && all[i].Sound() ==> Covered(all[i])
    }

    // Between two passes of the main loop: nothing is locked, and it is safe to sleep.
    ghost predicate Idle()
      reads this, timers, timers.nodes, all
    {
      Valid() && timers.locks == 0 && CoversFirst(|all|)
    }

    constructor (now: Time)
      ensures Idle() && all == [] && timers.nodes == [] && fresh(timers) && this.now == now
    {
      timers := new List<Timer>();
      nextCall, this.now := 0, now;
      all, destroyed, calls := [], {}, [];
    }

    // Never oversleep: nothing that can be called is due before the returned time.
    method GetNextCall() returns (r: int)
      ensures r == if nextCall == 0 then now + 120 else nextCall
      ensures Idle() ==> forall i :: 0 <= i < |all| ==>
        var t := all[i];
        (if t.hasProc then t.repeat ==> t.interval > 0 else t.interval > 0 ==> t.repeat) ==> r <= t.next
    {
      assert timers.locks == 0 && Valid() ==> forall i :: 0 <= i < |all| ==> timers.nodes[i] !in timers.dead;
      if nextCall == 0 {
        r := now + 120;
      } else {
        r := nextCall;
      }
    }

    // Reschedule. The timer need not be in the list yet.
    method Reschedule(t: Timer, next: Time)
      requires Valid()
      modifies this`nextCall, t`next
      ensures Valid() && t.next == next
      ensures nextCall == if next < old(nextCall) || old(nextCall) == 0 then next else old(nextCall)
    {
      t.next := next;
      if next < nextCall || nextCall == 0 {
        nextCall := next;
      }
    }

    method Create(interval: nat, repeat: bool, hasProc: bool) returns (t: Timer)
      requires Valid()
      modifies this, timers, timers.nodes
      ensures Valid() && fresh(t) && timers.locks == old(timers.locks)
      ensures t.interval == interval && t.repeat == repeat && t.hasProc == hasProc
      ensures all == old(all) + [t] && destroyed == old(destroyed) && now == old(now) && calls == old(calls)
      ensures t.next == now + interval && fresh(t.link) && timers.nodes == old(timers.nodes) + [t.link]
      ensures nextCall == if t.next < old(nextCall) || old(nextCall) == 0 then t.next else old(nextCall)
    {
      hide LinkedList.List.Linked, LinkedList.List.Contents, LinkedList.List.Valid;
      ListValid();
      t := new Timer(interval, repeat, hasProc);
      Reschedule(t, now + interval);
      t.link := timers.Insert(t);
      all := all + [t];
    }

    // b is the smaller of now + 120 and the times of the live timers among the first n.
    ghost predicate IsBest(b: int, n: nat)
      requires n <= |all|
      reads this`now, this`all, this`destroyed, all
    {
      && 0 < b <= now + 120
      && (forall i :: 0 <= i < n ==> all[i] in destroyed || b <= all[i].next)
      && (b == now + 120 || exists i :: 0 <= i < n && all[i] !in destroyed && b == all[i].next)
    }

    // The cursor's move from p to q passed dead elements only.
    lemma SkipBest(b: int, p: nat, q: nat)
      requires Valid() && p <= q <= |all| && IsBest(b, p)
      requires forall i :: p <= i < q ==> timers.nodes[i] in timers.dead
      ensures IsBest(b, q)
    {
      assert forall i :: p <= i < q ==> all[i] in destroyed;
    }

    lemma NextBest(b: int, p: nat)
      requires Valid() && p < |all| && IsBest(b, p) && timers.nodes[p] !in timers.dead
      ensures IsBest(if all[p].next < b then all[p].next else b, p + 1)
    {
      assert all[p] !in destroyed;
    }

    method RescheduleTimers()
      requires Valid()
      modifies this`nextCall, timers, timers.nodes
      ensures Valid() && timers.locks == old(timers.locks) && timers.dead == old(timers.dead)
      ensures timers.nodes == old(timers.nodes) && IsBest(nextCall, |all|)
    {
      hide *;
      ListValid();
      var c := new Cursor(timers);
      Undisturbed();
      ListValid();
      Standing(c, 0);
      label Found:
      var best := FindBest(c);
      ListValid();
      c.Destroy();
      Undisturbed@Found();
      nextCall := best;
    }

    lemma ListValid()
      requires Valid()
      ensures timers.Valid()
    {
    }

    // Valid depends on the list only through its chain and its dead elements.
    twostate lemma Undisturbed()
      requires old(Valid()) && timers.Valid()
      requires timers.nodes == old(timers.nodes) && timers.dead == old(timers.dead)
      requires all == old(all) && destroyed == old(destroyed)
      requires forall i :: 0 <= i < |all| ==> all[i].link == old(all[i].link)
      ensures Valid()
    {
    }

    // The loop of RescheduleTimers.
    method FindBest(c: Cursor<Timer>) returns (best: Time)
      requires Valid() && c.list == timers && c.StandsFrom(0)
      modifies c
      ensures IsBest(best, |all|)
    {
      hide *;
      best := now + 120;
      StartBest(c);
      Standing(c, 0);
      while c.current != null
        invariant Valid() && c.Valid() && At(c) && c.pos <= |all|
        invariant IsBest(best, c.pos)
        decreases |all| - c.pos
      {
        ghost var p := c.pos;
        AtLive(c);
        NextBest(best, p);
        if c.current.value.next < best {
          best := c.current.value.next;
        }
        c.Proceed();
        Standing(c, p + 1);
        SkipBest(best, p + 1, c.pos);
      }
      AtEnd(c);
    }

    lemma StartBest(c: Cursor<Timer>)
      requires Valid() && c.list == timers && c.StandsFrom(0)
      ensures c.pos <= |all| && IsBest(now + 120, c.pos)
    {
      Standing(c, 0);
      SkipBest(now + 120, 0, c.pos);
    }

    // The cursor stands on a live timer, or past the last one.
    ghost predicate At(c: Cursor<Timer>)
      reads this, timers, timers.nodes, c
    {
      && c.pos <= |all| == |timers.nodes|
      && if c.current == null then c.pos == |all|
         else c.pos < |all| && timers.nodes[c.pos] !in timers.dead && c.current == timers.nodes[c.pos]
    }

    lemma AtLive(c: Cursor<Timer>)
      requires Valid() && At(c) && c.current != null && c.list == timers
      ensures c.pos < |all| == |timers.nodes| && all[c.pos] == c.current.value
      ensures all[c.pos] !in destroyed && timers.nodes[c.pos] !in timers.dead
    {
    }

    lemma AtEnd(c: Cursor<Timer>)
      requires At(c) && c.current == null
      ensures c.pos == |all|
    {
    }

    // Appending to the list does not move a cursor away from its timer.
    twostate lemma AtGrown(c: Cursor<Timer>)
      requires old(At(c)) && c.current != null && c.current == old(c.current) && c.pos == old(c.pos)
      requires Grows() && timers.locks > 0 && timers.Valid() && c.list == timers
      ensures c.Valid() && |old(all)| <= |all|
    {
    }

    // What StandsFrom says, spelled out.
    lemma Standing(c: Cursor<Timer>, p: nat)
      requires Valid() && c.list == timers && c.StandsFrom(p)
      ensures c.Valid() && p <= c.pos <= |all| == |timers.nodes| && At(c)
      ensures forall i :: p <= i < c.pos ==> timers.nodes[i] in timers.dead
    {
    }

    lemma BestCovers(n: nat)
      requires n <= |all| && IsBest(nextCall, n)
      ensures CoversFirst(n)
    {
    }

    lemma DistinctTimers()
      requires Valid()
      ensures Distinct(all)
    {
      forall i, j | 0 <= i < j < |all| ensures all[i] != all[j] {
        assert all[i].link == timers.nodes[i] && all[j].link == timers.nodes[j];
      }
    }

    // ~CTimer, first half: the i-th timer of the list leaves it.
    method Detach(t: Timer, ghost i: nat)
      requires Valid() && i < |all| && all[i] == t && t !in destroyed
      modifies this`all, this`destroyed, timers, timers.nodes
      ensures Valid() && timers.locks == old(timers.locks)
      ensures destroyed == old(destroyed) + {t}
      ensures all == if timers.locks > 0 then old(all) else old(all[..i] + all[i + 1..])
      ensures timers.locks > 0 ==> timers.nodes == old(timers.nodes)
      ensures forall j :: 0 <= j < |timers.nodes| ==> timers.nodes[j] in old(timers.nodes)
      ensures forall j :: 0 <= j < |all| ==> all[j] in old(all)
    {
      hide Without, Distinct, LinkedList.List.Linked;
      DistinctTimers();
      WithoutOne(all, i);
      timers.Remove(t.link, i);
      if timers.locks == 0 {
        all := Without(all, {t});
      }
      destroyed := destroyed + {t};
    }

    // ~CTimer
    method Destroy(t: Timer, ghost i: nat)
      requires Valid() && i < |all| && all[i] == t && t !in destroyed
      modifies this, timers, timers.nodes
      ensures Valid() && timers.locks == old(timers.locks) && now == old(now) && calls == old(calls)
      ensures destroyed == old(destroyed) + {t} && IsBest(nextCall, |all|)
      ensures all == if timers.locks > 0 then old(all) else old(all[..i] + all[i + 1..])
      ensures timers.locks > 0 ==> timers.nodes == old(timers.nodes)
      ensures Stays()
    {
      hide IsBest, Valid, CoversFirst, Idle;
      Detach(t, i);
      RescheduleTimers();
    }

    // ---- callbacks ------------------------------------------------------------------

    // What holds across anything that happens under a lock: the list only grows.
    twostate predicate Grows()
      reads this, timers, timers.nodes
    {
      && old(all) <= all && old(timers.nodes) <= timers.nodes && old(destroyed) <= destroyed
      && (forall i :: |old(all)| <= i < |all| ==> fresh(all[i]))
      && (forall i :: |old(timers.nodes)| <= i < |timers.nodes| ==> fresh(timers.nodes[i]))
    }

    // Nothing joins the list but new objects.
    twostate predicate Stays()
      reads this, timers
    {
      && (forall i :: 0 <= i < |all| ==> all[i] in old(all) || fresh(all[i]))
      && (forall i :: 0 <= i < |timers.nodes| ==> timers.nodes[i] in old(timers.nodes) || fresh(timers.nodes[i]))
    }

    // Every timer that was covered and is not destroyed since is covered still.
    twostate predicate Keeps()
      reads this, timers, timers.nodes, all
    {
      && Grows()
      && forall i :: 0 <= i < |old(all)| ==>
           all[i] in destroyed || !old(Covered(all[i])) || Covered(all[i])
    }

    // What was called since was not destroyed before, and what is destroyed stays so.
    twostate predicate CalledAlive()
      reads this
    {
      && old(calls) <= calls && old(destroyed) <= destroyed
      && forall i :: |old(calls)| <= i < |calls| ==> calls[i] !in old(destroyed)
    }

    method Act(a: Action, self: Timer)
      requires Valid() && timers.locks > 0 && self !in destroyed
      modifies this, timers, timers.nodes, all
      ensures Valid() && timers.locks == old(timers.locks) && now == old(now)
      ensures Keeps() && self !in destroyed && calls == old(calls)
    {
      hide IsBest, Valid;
      match a
      case Create(interval, repeat, hasProc) =>
        var t := Create(interval, repeat, hasProc);
      case Destroy(k) =>
        if k < |all| && all[k] !in destroyed && all[k] != self {
          Destroy(all[k], k);
          BestCoversAll();
        }
      case Reschedule(k, next) =>
        if k < |all| && all[k] !in destroyed {
          Reschedule(all[k], next);
        }
    }

    lemma BestCoversAll()
      requires IsBest(nextCall, |all|)
      ensures forall i :: 0 <= i < |all| ==> all[i] in destroyed || Covered(all[i])
    {
    }

    // Nothing but the timer t itself was touched.
    twostate predicate OthersUntouched(t: Timer)
      reads this, all
    {
      && all == old(all) && old(destroyed) <= destroyed <= old(destroyed) + {t}
      && forall i :: 0 <= i < |all| && all[i] != t ==> all[i].next == old(all[i].next)
    }

    // m_Proc(ThisCall, m_Cookie): only ever for a timer that is not destroyed.
    method Invoke(t: Timer, actions: seq<Action>)
      requires Valid() && timers.locks > 0 && t !in destroyed && t.hasProc
      modifies this, timers, timers.nodes, all
      ensures Valid() && timers.locks == old(timers.locks) && now == old(now)
      ensures Keeps() && t !in destroyed && calls == old(calls) + [t]
      ensures actions == [] ==> OthersUntouched(t) && nextCall == old(nextCall) && t.next == old(t.next)
    {
      hide IsBest, Valid;
      calls := calls + [t];
      for k := 0 to |actions|
        invariant k == 0 ==> OthersUntouched(t) && nextCall == old(nextCall) && t.next == old(t.next)
        invariant Valid() && timers.locks == old(timers.locks) && now == old(now)
        invariant Keeps() && t !in destroyed && calls == old(calls) + [t]
      {
        Act(actions[k], t);
      }
    }

    // The timer that is being called is destroyed.
    method End(t: Timer, ghost i: nat)
      requires Valid() && timers.locks > 0 && i < |all| && all[i] == t && t !in destroyed
      modifies this, timers, timers.nodes
      ensures Valid() && timers.locks == old(timers.locks) && now == old(now) && calls == old(calls)
      ensures Keeps() && OthersUntouched(t) && t in destroyed
    {
      hide IsBest, Valid;
      Destroy(t, i);
      BestCoversAll();
    }

    // The rest of CTimer::Call, once the timer has its next time.
    method Answer(t: Timer, ghost i: nat, reply: Reply)
      requires Valid() && timers.locks > 0 && i < |all| && all[i] == t && t !in destroyed
      modifies this, timers, timers.nodes, all
      ensures Valid() && timers.locks == old(timers.locks) && now == old(now)
      ensures Keeps() && calls == old(calls) + if t.hasProc then [t] else []
      ensures t in destroyed <==> if t.hasProc then !reply.again || !t.repeat else t.interval == 0
      ensures !t.hasProc || reply.actions == [] ==>
        OthersUntouched(t) && (t in destroyed || (t.next == old(t.next) && nextCall == old(nextCall)))
    {
      hide IsBest, Valid, Stays, LinkedList.List.Valid, CoversFirst, At, Idle, QuietTo, Covered;
      if !t.hasProc {
        if t.interval == 0 {
          End(t, i);
        }
        return;
      }
      Invoke(t, reply.actions);
      if !reply.again || !t.repeat {
        End(t, i);
      }
    }

    // CTimer::Call, for the i-th timer of the list, with the reply its function gives.
    method Call(t: Timer, ghost i: nat, reply: Reply)
      requires Valid() && timers.locks > 0 && i < |all| && all[i] == t && t !in destroyed
      modifies this, timers, timers.nodes, all
      ensures Valid() && timers.locks == old(timers.locks) && now == old(now)
      ensures Keeps() && calls == old(calls) + if t.hasProc then [t] else []
      ensures t in destroyed || !t.Sound() || Covered(t)
      // with a function that touches no timer, only t changes, and it is no longer due
      ensures !t.hasProc || reply.actions == [] ==>
        OthersUntouched(t) && (t in destroyed || !t.Sound() || t.next > now)
      // a repeating timer is next due one interval from now, any other keeps its time
      ensures !t.hasProc || reply.actions == [] ==>
        t in destroyed || t.next == if t.interval > 0 && t.repeat then now + t.interval else old(t.next)
      // it is destroyed if it has no function and no interval, or does not repeat, or its
      // function says so
      ensures t in destroyed <==> if t.hasProc then !reply.again || !t.repeat else t.interval == 0
      // a timer of an unsound shape is left in the past, and nextCall ignores it
      ensures !t.Sound() && reply == Reply([], true) ==>
        t !in destroyed && t.next == old(t.next) && nextCall == old(nextCall)
      ensures reply == Reply([], true) ==>
        if t.Ends() then t in destroyed else t !in destroyed && (nextCall == old(nextCall) || nextCall > now)
    {
      hide IsBest, Valid, Stays, LinkedList.List.Valid, CoversFirst, At, Idle, QuietTo;
      if t.interval != 0 && t.repeat {
        Reschedule(t, now + t.interval);
      }
      Answer(t, i, reply);
    }

    // ---- the pass of the main loop ----------------------------------------------------

    lemma CoverNone()
      ensures CoversFirst(0)
    {
    }

    // Of the first n timers, those that were due when the snapshot was taken and have a
    // function.
    ghost function Due(start: Snapshot, n: nat): seq<Timer>
      requires n <= |start.all| == |start.nexts|
    {
      if n == 0 then []
      else Due(start, n - 1) +
           if start.all[n - 1].hasProc && start.nexts[n - 1] <= start.now then [start.all[n - 1]] else []
    }

    // Of the first n timers, those that were due and have a function.
    lemma {:induction false} DueHas(start: Snapshot, n: nat, t: Timer)
      requires n <= |start.all| == |start.nexts|
      ensures t in Due(start, n) <==>
        exists i :: 0 <= i < n && start.all[i] == t && t.hasProc && start.nexts[i] <= start.now
    {
      if n > 0 {
        DueHas(start, n - 1, t);
      }
    }

    // Each is called once, in the order of the list.
    lemma {:induction false} DueOrder(start: Snapshot, n: nat, a: nat, b: nat) returns (i: nat, j: nat)
      requires n <= |start.all| == |start.nexts| && a < b < |Due(start, n)|
      ensures i < j < n && start.all[i] == Due(start, n)[a] && start.all[j] == Due(start, n)[b]
    {
      var before := Due(start, n - 1);
      if b < |before| {
        i, j := DueOrder(start, n - 1, a, b);
      } else {
        DueHas(start, n - 1, before[a]);
        i :| 0 <= i < n - 1 && start.all[i] == before[a];
        j := n - 1;
      }
    }

    // How far a pass has come whose functions touch no timer: of the first p timers it
    // has called those that were due, in order, and left none of them due.
    ghost predicate QuietTo(start: Snapshot, p: nat)
      reads this`all, this`calls, this`now, this`destroyed, all
    {
      && p <= |start.all| == |start.nexts| && all == start.all && now == start.now
      && calls == start.calls + Due(start, p)
      && (forall i :: p <= i < |all| ==> all[i] !in destroyed && all[i].next == start.nexts[i])
      && (forall i :: 0 <= i < p ==> all[i] in destroyed || !all[i].Sound() || all[i].next > now)
      && (forall i :: 0 <= i < p ==> Settled(all[i], start.nexts[i]))
    }

    // A timer the pass has been at, and the time it had.
    ghost predicate Settled(t: Timer, was: int)
      reads this`now, this`destroyed, t
    {
      if was > now then t !in destroyed && t.next == was
      else
        && (t in destroyed || t.next == if t.interval > 0 && t.repeat then now + t.interval else was)
        && (t.Ends() ==> t in destroyed) && (!t.hasProc && !t.Ends() ==> t !in destroyed)
    }

    // The same where every function returns true: only shapes that end are destroyed, those
    // that are not sound keep their times, and the bound has nothing to do with them.
    ghost predicate SteadyTo(start: Snapshot, p: nat)
      reads this`all, this`calls, this`now, this`destroyed, this`nextCall, all
    {
      && QuietTo(start, p) && p <= |all|
      && (forall i :: 0 <= i < p ==>
            (all[i] in destroyed ==> all[i].Ends()) && (!all[i].Sound() ==> all[i].next == start.nexts[i]))
      && ((forall i :: 0 <= i < p ==> !all[i].Ends()) ==> nextCall == 0 || nextCall > now)
    }

    ghost function Snap(): Snapshot
      reads this`all, this`calls, this`now, all
    {
      var ts := all;
      Snapshot(ts, seq(|ts|, i requires 0 <= i < |ts| reads ts => ts[i].next as int), calls, now)
    }

    lemma QuietStart()
      requires forall i :: 0 <= i < |all| ==> all[i] !in destroyed
      ensures QuietTo(Snap(), 0) && (nextCall == 0 ==> SteadyTo(Snap(), 0))
    {
    }

    lemma QuietSkip(start: Snapshot, p: nat, q: nat)
      requires Valid() && p <= q <= |all| && QuietTo(start, p)
      requires forall i :: p <= i < q ==> timers.nodes[i] in timers.dead
      ensures p == q
    {
      assert p < |all| ==> all[p] !in destroyed;
    }

    // A timer that is not due may be the next one.
    method Note(t: Timer, ghost p: nat, ghost start: Snapshot)
      requires Valid() && p < |all| && all[p] == t && t !in destroyed && now < t.next
      requires CoversFirst(p)
      modifies this`nextCall
      ensures Valid() && CoversFirst(p + 1) && (old(QuietTo(start, p)) ==> QuietTo(start, p + 1))
      ensures old(SteadyTo(start, p)) ==> SteadyTo(start, p + 1)
    {
      hide Valid, IsBest;
      if t.next < nextCall || nextCall == 0 {
        nextCall := t.next;
      }
    }

    // What a call at the p-th timer means for the pass so far.
    twostate lemma CalledPass(v: Visited)
      requires v.p < |old(all)| && old(Distinct(all)) && now == old(now) && old(CoversFirst(v.p)) && Keeps()
      requires var t := old(all)[v.p];
        && t !in old(destroyed) && old(t.next) <= now && calls == old(calls) + (if t.hasProc then [t] else [])
        && (t in destroyed || !t.Sound() || Covered(t))
        && (v.quiet ==> OthersUntouched(t) && (t in destroyed || !t.Sound() || t.next > now))
        && (v.quiet ==> t in destroyed || t.next == if t.interval > 0 && t.repeat then now + t.interval else old(t.next))
        && (t.Ends() ==> t in destroyed) && (!t.hasProc && !t.Ends() ==> t !in destroyed)
        && (v.steady ==> v.quiet && (!t.Sound() ==> t !in destroyed && t.next == old(t.next)))
        && (v.steady && t.Ends() ==> t in destroyed)
        && (v.steady && !t.Ends() ==> t !in destroyed && (nextCall == old(nextCall) || nextCall > now))
      ensures CoversFirst(v.p + 1) && Grows() && (v.quiet ==> all == old(all))
      ensures v.quiet && old(QuietTo(v.start, v.p)) ==> QuietTo(v.start, v.p + 1)
      ensures v.steady && old(SteadyTo(v.start, v.p)) ==> SteadyTo(v.start, v.p + 1)
    {
    }

    method VisitDue(t: Timer, ghost p: nat, reply: Reply, ghost start: Snapshot)
      requires Valid() && timers.locks > 0 && p < |all| && all[p] == t && t !in destroyed && t.next <= now
      requires CoversFirst(p)
      modifies this, timers, timers.nodes, all
      ensures Valid() && timers.locks == old(timers.locks) && now == old(now)
      ensures Grows() && CoversFirst(p + 1)
      ensures calls == old(calls) + if t.hasProc then [t] else []
      ensures !t.hasProc || reply.actions == [] ==>
        all == old(all) && (old(QuietTo(start, p)) ==> QuietTo(start, p + 1))
      ensures reply == Reply([], true) && old(SteadyTo(start, p)) ==> SteadyTo(start, p + 1)
    {
      hide IsBest, Valid, CoversFirst, QuietTo, SteadyTo, Covered, Stays, Idle, Keeps, Grows, OthersUntouched;
      DistinctTimers();
      Call(t, p, reply);
      CalledPass(Visited(p, start, !t.hasProc || reply.actions == [], reply == Reply([], true)));
    }

    // One turn of CallTimers' loop, at the p-th timer of the list.
    method Visit(t: Timer, ghost p: nat, reply: Reply, ghost start: Snapshot) returns (called: bool)
      requires Valid() && timers.locks > 0 && p < |all| && all[p] == t && t !in destroyed
      requires CoversFirst(p)
      modifies this, timers, timers.nodes, all
      ensures Valid() && timers.locks == old(timers.locks) && now == old(now)
      ensures Grows() && Stays() && CoversFirst(p + 1) && CalledAlive()
      ensures called == (old(t.next) <= now)
      ensures calls == old(calls) + if called && t.hasProc then [t] else []
      ensures !called || !t.hasProc || reply.actions == [] ==>
        all == old(all) && (old(QuietTo(start, p)) ==> QuietTo(start, p + 1))
      ensures reply == Reply([], true) && old(SteadyTo(start, p)) ==> SteadyTo(start, p + 1)
    {
      hide IsBest, Valid, CoversFirst, QuietTo, SteadyTo, Idle;
      called := now >= t.next;
      if called {
        VisitDue(t, p, reply, start);
      } else {
        Note(t, p, start);
      }
    }

    lemma CoverSkipped(p: nat, q: nat)
      requires Valid() && CoversFirst(p) && p <= q <= |all|
      requires forall i :: p <= i < q ==> timers.nodes[i] in timers.dead
      ensures CoversFirst(q)
    {
      assert forall i :: p <= i < q ==> all[i] in destroyed;
    }

    // One turn of the loop of CallTimers, and the cursor's move to the next timer.
    method Turn(c: Cursor<Timer>, reply: Reply, ghost start: Snapshot) returns (called: bool)
      requires Valid() && timers.locks > 0 && c.list == timers && c.Valid() && At(c) && c.current != null
      requires CoversFirst(c.pos)
      modifies this, timers, timers.nodes, all, c
      ensures Valid() && timers.locks == old(timers.locks) && now == old(now) && Stays()
      ensures c.Valid() && At(c) && old(c.pos) < c.pos <= |all| && CoversFirst(c.pos)
      ensures !called || reply.actions == [] ==> all == old(all)
      ensures reply.actions == [] && old(QuietTo(start, c.pos)) ==> QuietTo(start, c.pos)
      ensures reply == Reply([], true) && old(SteadyTo(start, c.pos)) ==> SteadyTo(start, c.pos)
      ensures CalledAlive()
    {
      hide *;
      ghost var p: nat := c.pos;
      var t := c.current.value;
      AtLive(c);
      called := Visit(t, p, reply, start);
      called := called && t.hasProc;
      ghost var quiet, steady := QuietTo(start, p + 1), SteadyTo(start, p + 1);
      ListNodes();
      AtGrown(c);
      c.Proceed();
      assert (quiet ==> QuietTo(start, p + 1)) && (steady ==> SteadyTo(start, p + 1));
      Standing(c, p + 1);
      CoverSkipped(p + 1, c.pos);
      if quiet {
        QuietSkip(start, p + 1, c.pos);
      }
      SteadyIsQuiet(start, p + 1);
    }

    lemma SteadyIsQuiet(start: Snapshot, p: nat)
      ensures SteadyTo(start, p) ==> QuietTo(start, p)
    {
    }

    // The loop of CallTimers. The n-th call of a timer function is answered by
    // replies[n]; once they are used up, functions do nothing and return true.
    method Pass(c: Cursor<Timer>, replies: seq<Reply>)
      requires forall i :: 0 <= i < |all| ==> all[i] !in destroyed
      requires Valid() && timers.locks > 0 && nextCall == 0 && c.list == timers && c.StandsFrom(0)
      modifies this, timers, timers.nodes, all, c
      ensures Valid() && timers.locks == old(timers.locks) && now == old(now)
      ensures CoversFirst(|all|) && Stays()
      ensures Quiet(replies) ==> QuietTo(old(Snap()), |all|)
      ensures Steady(replies) ==> SteadyTo(old(Snap()), |all|)
      ensures CalledAlive()
    {
      hide IsBest, Valid, CoversFirst, At, QuietTo, Snap, LinkedList.List.Valid, LinkedList.Cursor.Valid, LinkedList.Cursor.StandsFrom;
      ghost var quiet := Quiet(replies);
      ghost var steady := Steady(replies);
      ghost var start := Snap();
      Standing(c, 0);
      CoverNone();
      CoverSkipped(0, c.pos);
      QuietStart();
      QuietSkip(start, 0, c.pos);
      var used := 0;
      while c.current != null
        invariant Valid() && timers.locks == old(timers.locks) && now == old(now)
        invariant c.Valid() && At(c) && c.pos <= |all|
        invariant CoversFirst(c.pos) && Stays() && used <= |replies|
        invariant (quiet ==> QuietTo(start, c.pos)) && (steady ==> SteadyTo(start, c.pos))
        invariant CalledAlive()
        decreases |replies| - used, |all| - c.pos
      {
        var reply := if used < |replies| then replies[used] else Reply([], true);
        assert (quiet ==> reply.actions == []) && (steady ==> reply == Reply([], true));
        var called := Turn(c, reply, start);
        if called && used < |replies| {
          used := used + 1;
        }
      }
      AtEnd(c);
    }

    lemma ListNodes()
      requires Valid()
      ensures timers.Valid() && |timers.nodes| == |all|
    {
    }

    // The elements that survive the last unlock are the timers that were not destroyed.
    lemma {:induction false} WithoutParallel(ns: seq<Link<Timer>>, ts: seq<Timer>, dead: set<Link<Timer>>, gone: set<Timer>)
      requires |ns| == |ts|
      requires forall i :: 0 <= i < |ns| ==>
        ns[i].value == ts[i] && ts[i].link == ns[i] && (ns[i] in dead <==> ts[i] in gone)
      ensures |Without(ns, dead)| == |Without(ts, gone)|
      ensures forall k :: 0 <= k < |Without(ns, dead)| ==>
        && Without(ns, dead)[k].value == Without(ts, gone)[k]
        && Without(ts, gone)[k].link == Without(ns, dead)[k] && Without(ns, dead)[k] in ns
    {
      if ns != [] {
        var init := ns[..|ns| - 1];
        WithoutParallel(init, ts[..|ts| - 1], dead, gone);
        assert forall n :: n in init ==> n in ns;
      }
    }

    lemma {:induction false} WithoutCovered(ts: seq<Timer>)
      requires forall i :: 0 <= i < |ts| ==> ts[i] in destroyed || !ts[i].Sound() || Covered(ts[i])
      ensures forall k :: 0 <= k < |Without(ts, destroyed)| ==>
        var t := Without(ts, destroyed)[k];
        t in ts && t !in destroyed && (!t.Sound() || Covered(t))
    {
      if ts != [] {
        var init := ts[..|ts| - 1];
        WithoutCovered(init);
        assert forall t :: t in init ==> t in ts;
      }
    }

    // What the last unlock leaves is matched, live and covered.
    ghost predicate Surviving(ns: seq<Link<Timer>>, ts: seq<Timer>)
      reads this`destroyed, this`nextCall, ts
    {
      |ns| == |ts| && forall k :: 0 <= k < |ts| ==>
        && ns[k].value == ts[k] && ts[k].link == ns[k] && ts[k] !in destroyed && (!ts[k].Sound() || Covered(ts[k]))
    }

    lemma Survivors()
      requires Valid() && CoversFirst(|all|)
      ensures var ns, ts := Without(timers.nodes, timers.dead), Without(all, destroyed);
        && Surviving(ns, ts)
        && forall k :: 0 <= k < |ts| ==> ts[k] in all && ns[k] in timers.nodes && ts[k] !in destroyed
    {
      WithoutParallel(timers.nodes, all, timers.dead, destroyed);
      WithoutCovered(all);
    }

    lemma Rested()
      requires timers.Valid() && timers.locks == 0 && timers.dead == {} && Surviving(timers.nodes, all)
      ensures Idle()
    {
      hide LinkedList.List.Valid;
    }

    lemma ListContents()
      ensures timers.Contents() == Without(timers.nodes, timers.dead)
    {
    }

    // The end of the cursor's life: if it was the last, the list is swept.
    method LeaveLast(c: Cursor<Timer>)
      requires Valid() && timers.locks == 1 && c.list == timers && CoversFirst(|all|)
      modifies this`all, timers, timers.nodes
      ensures Idle()
      ensures all == old(Without(all, destroyed)) && Stays()
      ensures forall i :: 0 <= i < |all| ==> all[i] in old(all) && all[i] !in destroyed
    {
      hide Without, LinkedList.List.Linked, LinkedList.List.Valid, LinkedList.List.Contents;
      hide Valid, CoversFirst, Idle, Surviving, Covered;
      ListValid();
      ListContents();
      Survivors();
      c.Destroy();
      all := Without(all, destroyed);
      Rested();
    }

    // A quiet pass, timer by timer: one that was not due is as it was. One that was keeps its
    // place unless it ends, repeating ones with a time one interval from now.
    ghost predicate Elapsed(start: Snapshot, left: seq<Timer>)
      reads start.all
    {
      |start.all| == |start.nexts| &&
      forall i :: 0 <= i < |start.all| ==>
        var t, was := start.all[i], start.nexts[i];
        if was > start.now then t in left && t.next == was
        else
          && (t in left ==> t.next == if t.interval > 0 && t.repeat then start.now + t.interval else was)
          && ((if t.hasProc then !t.repeat else t.interval == 0) ==> t !in left)
          && (!t.hasProc && t.interval > 0 ==> t in left)
    }

    // The same where the functions return true: exactly those that end are gone.
    ghost predicate Kept(start: Snapshot, left: seq<Timer>) {
      |start.all| == |start.nexts| &&
      forall i :: 0 <= i < |start.all| ==>
        var t := start.all[i];
        t in left <==> start.nexts[i] > start.now || if t.hasProc then t.repeat else t.interval > 0
    }

    lemma PassElapsed(start: Snapshot)
      requires QuietTo(start, |all|)
      ensures Elapsed(start, Without(all, destroyed))
      ensures SteadyTo(start, |all|) ==> Kept(start, Without(all, destroyed))
    {
      forall i | 0 <= i < |start.all|
        ensures start.all[i] in Without(all, destroyed) <==> start.all[i] !in destroyed
        ensures Settled(start.all[i], start.nexts[i])
      {
        WithoutHas(all, destroyed, start.all[i]);
      }
    }

    lemma NoneDue(start: Snapshot)
      requires QuietTo(start, |all|)
      ensures forall t :: t in all ==> t in destroyed || !t.Sound() || t.next > now
      ensures calls == start.calls + Due(start, |start.all|)
    {
    }

    lemma SteadyIsQuietToo(replies: seq<Reply>)
      ensures Steady(replies) ==> Quiet(replies)
    {
    }

    lemma SnapAll()
      ensures Snap().all == all && |Snap().nexts| == |all| && Snap().calls == calls
    {
    }

    lemma SnapOne(t: Timer)
      requires all == [t]
      ensures Snap().all == [t] && Snap().nexts == [t.next] && (!t.Ends() ==> NoneEnds(Snap()))
    {
    }

    lemma NoneEnded(start: Snapshot)
      requires SteadyTo(start, |all|) && NoneEnds(start)
      ensures Without(all, destroyed) == start.all && Passed(start)
    {
      WithoutNoneDead(all, destroyed);
    }

    ghost predicate NoneEnds(start: Snapshot) {
      forall i :: 0 <= i < |start.all| ==> !start.all[i].Ends()
    }

    // The unsound timers kept their times, and the bound is past them.
    ghost predicate Passed(start: Snapshot)
      reads this`nextCall, this`now, start.all
    {
      && (nextCall == 0 || nextCall > now) && |start.nexts| == |start.all|
      && forall i :: 0 <= i < |start.all| ==> !start.all[i].Sound() ==> start.all[i].next == start.nexts[i]
    }

    // The end of the pass.
    method Leave(c: Cursor<Timer>, ghost replies: seq<Reply>, ghost start: Snapshot)
      requires Valid() && timers.locks == 1 && c.list == timers && CoversFirst(|all|)
      requires Quiet(replies) ==> QuietTo(start, |all|)
      requires Steady(replies) ==> SteadyTo(start, |all|)
      modifies this`all, timers, timers.nodes
      ensures Idle() && Stays()
      ensures Quiet(replies) ==>
        && calls == start.calls + Due(start, |start.all|)
        && (forall i :: 0 <= i < |all| ==> !all[i].Sound() || all[i].next > now)
        && Elapsed(start, all)
      ensures Steady(replies) ==> Kept(start, all)
      ensures Steady(replies) && NoneEnds(start) ==> all == start.all && Passed(start)
    {
      hide Valid, CoversFirst, Idle, QuietTo, Due, LinkedList.List.Valid, LinkedList.Cursor.Valid, SteadyTo;
      hide NoneEnds, Quiet, Settled, Kept;
      SteadyIsQuietToo(replies);
      if Quiet(replies) {
        NoneDue(start);
        PassElapsed(start);
      }
      if Steady(replies) && NoneEnds(start) {
        NoneEnded(start);
      }
      LeaveLast(c);
    }

    // CTimer::CallTimers. Whatever the timer functions do to other timers, no timer of a
    // sound shape is left due before the time the main loop will sleep until. If they do
    // nothing, exactly the timers that were due had theirs called, and none is due still.
    method CallTimers(replies: seq<Reply>)
      requires Valid() && timers.locks == 0
      modifies this, timers, timers.nodes, all
      ensures Idle() && now == old(now) && Stays()
      ensures Quiet(replies) ==>
        && calls == old(calls) + Due(old(Snap()), |old(all)|)
        && (forall i :: 0 <= i < |all| ==> !all[i].Sound() || all[i].next > now)
        && Elapsed(old(Snap()), all)
      ensures Steady(replies) ==> Kept(old(Snap()), all)
      ensures CalledAlive()
      // a pass in which no timer ends: the unsound ones keep their times, and the bound is
      // past them
      ensures Steady(replies) && NoneEnds(old(Snap())) ==> all == old(all) && Passed(old(Snap()))
    {
      hide IsBest, Valid, CoversFirst, Idle, QuietTo, Due, LinkedList.List.Valid, LinkedList.Cursor.Valid, LinkedList.Cursor.StandsFrom;
      hide SteadyTo, Snap, NoneEnds, Passed, Steady, Quiet, Elapsed, Kept, Settled;
      SnapAll();
      ghost var start := Snap();
      NoneDestroyed();
      nextCall := 0;
      ListValid();
      var c := new Cursor(timers);
      Undisturbed();
      Pass(c, replies);
      Leave(c, replies, start);
    }

    lemma NoneDestroyed()
      requires Valid() && timers.locks == 0
      ensures forall i :: 0 <= i < |all| ==> all[i] !in destroyed
    {
      assert forall i :: 0 <= i < |all| ==> timers.nodes[i] !in timers.dead;
    }

    // ---- whole runs -------------------------------------------------------------------

    method Step(e: Event)
      requires Idle()
      modifies this, timers, timers.nodes, all
      ensures Idle() && Stays() && CalledAlive()
    {
      hide IsBest, Valid;
      match e
      case Tick(t) =>
        now := t;
      case Fire(replies) =>
        CallTimers(replies);
      case Do(Create(interval, repeat, hasProc)) =>
        var t := Create(interval, repeat, hasProc);
      case Do(Destroy(k)) =>
        if k < |all| && all[k] !in destroyed {
          Destroy(all[k], k);
          BestCovers(|all|);
        }
      case Do(Reschedule(k, next)) =>
        if k < |all| && all[k] !in destroyed {
          Reschedule(all[k], next);
        }
    }

    // Over every run of the main loop and of code that creates, destroys and reschedules
    // timers between its passes, it is always safe to sleep until GetNextCall().
    method Run(events: seq<Event>)
      requires Idle()
      modifies this, timers, timers.nodes, all
      ensures Idle() && CalledAlive()
    {
      hide IsBest, Valid, CoversFirst, Idle;
      for k := 0 to |events|
        invariant Idle() && Stays() && CalledAlive()
      {
        Step(events[k]);
      }
    }
  }

  // For every shape that is not sound: a timer is created, comes due, and after the pass the
  // main loop is told to sleep past it, though it is due and still in the list.
  method Oversleep(now: Time, later: Time, interval: nat, repeat: bool, hasProc: bool)
      returns (pool: Pool, t: Timer, r: int)
    requires if hasProc then repeat && interval == 0 else interval > 0 && !repeat
    requires later >= now + interval
    ensures pool.Idle() && pool.all == [t] && t.next <= pool.now < r
    ensures t.interval == interval && t.repeat == repeat && t.hasProc == hasProc
  {
    hide Pool.Valid, Pool.CoversFirst, Pool.IsBest, Pool.QuietTo, Pool.SteadyTo, Pool.Due, Pool.Snap, Pool.NoneEnds;
    hide LinkedList.List.Valid, LinkedList.List.Linked;
    pool := new Pool(now);
    t := pool.Create(interval, repeat, hasProc);
    pool.now := later;
    pool.SnapOne(t);
    pool.CallTimers([]);
    r := pool.GetNextCall();
  }
}
