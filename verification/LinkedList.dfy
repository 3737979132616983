// src/List.h: a doubly linked list whose removals are deferred while it is locked,
// and the cursor that locks it.
module LinkedList {

  class Link<T> {
    const value: T
    var valid: bool
    var next: Link?<T>
    var previous: Link?<T>
    ghost var freed: bool    // the memory was given back

    constructor (value: T)
      ensures this.value == value && valid && !freed && next == null && previous == null
    {
      this.value, valid, next, previous := value, true, null, null;
      freed := false;
    }
  }

  // The elements of s that are not dead, in order.
  function Without<T(==)>(s: seq<T>, dead: set<T>): seq<T> {
    if s == [] then []
    else Without(s[..|s| - 1], dead) + if s[|s| - 1] in dead then [] else [s[|s| - 1]]
  }

  lemma {:induction false} WithoutNone<T>(s: seq<T>)
    ensures Without(s, {}) == s
  {
    if s != [] {
      WithoutNone(s[..|s| - 1]);
    }
  }

  lemma {:induction false} WithoutNoneDead<T>(s: seq<T>, dead: set<T>)
    requires forall i :: 0 <= i < |s| ==> s[i] !in dead
    ensures Without(s, dead) == s
  {
    if s != [] {
      WithoutNoneDead(s[..|s| - 1], dead);
    }
  }

  lemma {:induction false} WithoutHas<T>(s: seq<T>, dead: set<T>, x: T)
    ensures x in Without(s, dead) <==> x in s && x !in dead
  {
    if s != [] {
      WithoutHas(s[..|s| - 1], dead, x);
    }
  }

  lemma WithoutSnoc<T>(s: seq<T>, x: T, dead: set<T>)
    ensures Without(s + [x], dead) == Without(s, dead) + if x in dead then [] else [x]
  {
    assert (s + [x])[..|s|] == s;
  }

  lemma WithoutEmpty<T>(s: seq<T>, dead: set<T>)
    ensures s == [] ==> Without(s, dead) == []
  {
  }

  lemma WithoutLast<T>(s: seq<T>, dead: set<T>)
    requires s != []
    ensures Without(s, dead) == Without(s[..|s| - 1], dead) + if s[|s| - 1] in dead then [] else [s[|s| - 1]]
  {
  }

  lemma {:induction false} WithoutFront<T>(s: seq<T>, dead: set<T>)
    requires s != []
    ensures Without(s, dead) == (if s[0] in dead then [] else [s[0]]) + Without(s[1..], dead)
  {
    hide *;
    var init, last := s[..|s| - 1], s[|s| - 1];
    WithoutLast(s, dead);
    WithoutEmpty(init, dead);
    WithoutEmpty(s[1..], dead);
    var first, end := if s[0] in dead then [] else [s[0]], if last in dead then [] else [last];
    if |s| > 1 {
      WithoutFront(init, dead);
      assert s[1..] == init[1..] + [last];
      WithoutSnoc(init[1..], last, dead);
      Shift(first, Without(init[1..], dead), end);
    } else {
      assert [] + end == first + [];
    }
  }

  lemma {:induction false} WithoutLive<T>(s: seq<T>, dead: set<T>)
    ensures forall i :: 0 <= i < |Without(s, dead)| ==> Without(s, dead)[i] !in dead
  {
    if s != [] {
      WithoutLive(s[..|s| - 1], dead);
    }
  }

  lemma Shift<T>(a: seq<T>, b: seq<T>, c: seq<T>)
    ensures a + (b + c) == (a + b) + c
  {
  }

  // One element further in the sweep.
  lemma SweepStep<T>(kept: seq<T>, rest: seq<T>, dead: set<T>, keep: seq<T>)
    requires rest != [] && keep == if rest[0] in dead then [] else [rest[0]]
    ensures kept + Without(rest, dead) == (kept + keep) + Without(rest[1..], dead)
    ensures (if rest[0] in dead then kept + rest[1..] else kept + rest) == (kept + keep) + rest[1..]
  {
    hide *;
    WithoutFront(rest, dead);
    Shift(kept, keep, Without(rest[1..], dead));
    Shift(kept, [rest[0]], rest[1..]);
    assert rest == [rest[0]] + rest[1..] && kept + [] == kept;
  }

  // Dropping x later is dropping it now.
  lemma {:induction false} WithoutTwice<T>(s: seq<T>, dead: set<T>, x: T)
    ensures Without(s, dead + {x}) == Without(Without(s, dead), {x})
  {
    hide *;
    WithoutEmpty(s, dead);
    WithoutEmpty(s, dead + {x});
    WithoutEmpty(Without(s, dead), {x});
    if s != [] {
      var init, last := s[..|s| - 1], s[|s| - 1];
      var kept := Without(init, dead);
      WithoutTwice(init, dead, x);
      WithoutLast(s, dead);
      WithoutLast(s, dead + {x});
      WithoutSnoc(kept, last, {x});
      assert kept + [] == kept;
      assert last in dead + {x} <==> last in dead || last in {x};
    }
  }

  lemma {:induction false} WithoutOne<T>(s: seq<T>, i: nat)
    requires Distinct(s) && i < |s|
    ensures Without(s, {s[i]}) == s[..i] + s[i + 1..]
  {
    var init, last := s[..|s| - 1], s[|s| - 1];
    if i == |s| - 1 {
      WithoutAbsent(init, s[i]);
      assert s[..i] + s[i + 1..] == init;
    } else {
      WithoutOne(init, i);
      assert s[..i] + s[i + 1..] == init[..i] + init[i + 1..] + [last];
    }
  }

  lemma {:induction false} WithoutAbsent<T>(s: seq<T>, x: T)
    requires x !in s
    ensures Without(s, {x}) == s
  {
    if s != [] {
      assert s[|s| - 1] in s;
      WithoutAbsent(s[..|s| - 1], x);
    }
  }

  // The first index from p on that is not dead; |s| when there is none.
  ghost function FirstLive<T>(s: seq<T>, dead: set<T>, p: nat): (r: nat)
    requires p <= |s|
    ensures p <= r <= |s| && (r < |s| ==> s[r] !in dead)
    ensures forall i :: p <= i < r ==> s[i] in dead
    decreases |s| - p
  {
    if p == |s| || s[p] !in dead then p else FirstLive(s, dead, p + 1)
  }

  ghost predicate Distinct<T>(s: seq<T>) {
    forall i, j :: 0 <= i < j < |s| ==> s[i] != s[j]
  }

  lemma RemovedAt<T>(s: seq<T>, i: nat)
    requires i < |s| && Distinct(s)
    ensures var t := s[..i] + s[i + 1..];
            Distinct(t) && |t| == |s| - 1
            && (forall a :: 0 <= a < |t| ==> t[a] == (if a < i then s[a] else s[a + 1]) && t[a] != s[i])
  {
    var t := s[..i] + s[i + 1..];
    assert forall a :: 0 <= a < |t| ==> t[a] == if a < i then s[a] else s[a + 1];
  }

  class List<T> {
    var head: Link?<T>
    var tail: Link?<T>
    var locks: nat
    ghost var nodes: seq<Link<T>>         // what is linked, front to back
    ghost var dead: set<Link<T>>          // removed, but perhaps still linked

    // The pointers form the doubly linked list of nodes, none of them freed.
    ghost predicate Linked()
      reads this, nodes
    {
      && Distinct(nodes)
      && (if nodes == [] then head == null && tail == null
          else head == nodes[0] && tail == nodes[|nodes| - 1]
               && head.previous == null && tail.next == null)
      && (forall i :: 0 <= i < |nodes| ==> !nodes[i].freed && nodes[i].valid == (nodes[i] !in dead))
      && forall i, j :: 0 <= i < |nodes| && 0 <= j < |nodes| && j == i + 1 ==>
           nodes[i].next == nodes[j] && nodes[j].previous == nodes[i]
    }

    ghost predicate Valid()
      reads this, nodes
    {
      Linked() && (locks == 0 ==> dead == {})
    }

    // The list as its users see it.
    ghost function Contents(): seq<Link<T>>
      reads this
    {
      Without(nodes, dead)
    }

    constructor ()
      ensures Valid() && nodes == [] && dead == {} && locks == 0
    {
      head, tail, locks := null, null, 0;
      nodes, dead := [], {};
    }

    method Insert(item: T) returns (element: Link<T>)
      requires Valid()
      modifies this, nodes
      ensures Valid() && fresh(element) && element.value == item
      ensures nodes == old(nodes) + [element] && dead == old(dead) && locks == old(locks)
      ensures element !in old(nodes) && element !in dead
      ensures Contents() == old(Contents()) + [element]
    {
      element := new Link(item);
      if tail != null {
        element.previous := tail;
        tail.next := element;
        tail := element;
      } else {
        head, tail := element, element;
      }
      nodes := nodes + [element];
    }

    // The pointers around nodes[i] pass it by; all others stay.
    twostate predicate Bypassed(i: nat)
      requires i < |nodes|
      reads this, nodes
    {
      && nodes == old(nodes) && dead == old(dead) && locks == old(locks)
      && (forall k :: 0 <= k < |nodes| ==>
            && nodes[k].next == (if k + 1 == i then old(nodes[i].next) else old(nodes[k].next))
            && nodes[k].previous == (if k == i + 1 then old(nodes[i].previous) else old(nodes[k].previous))
            && nodes[k].freed == old(nodes[k].freed) && nodes[k].valid == old(nodes[k].valid))
      && head == (if i == 0 then old(nodes[i].next) else old(head))
      && tail == (if i + 1 == |nodes| then old(nodes[i].previous) else old(tail))
    }

    method Bypass(item: Link<T>, ghost i: nat)
      requires Linked() && i < |nodes| && nodes[i] == item
      modifies this`head, this`tail, nodes
      ensures Bypassed(i)
    {
      Neighbours(i);
      if item.next != null {
        item.next.previous := item.previous;
      }
      if item.previous != null {
        item.previous.next := item.next;
      }
      if item == head {
        head := item.next;
      }
      if item == tail {
        tail := item.previous;
      }
    }

    // Takes nodes[i] out of the chain.
    method Unlink(item: Link<T>, ghost i: nat)
      requires Linked() && i < |nodes| && nodes[i] == item
      modifies this, nodes
      ensures Linked() && item.freed
      ensures nodes == old(nodes[..i] + nodes[i + 1..]) && dead == old(dead) && locks == old(locks)
      ensures forall n :: n in old(nodes) && old(n.freed) ==> n.freed
    {
      hide *;
      LinkedMeans();
      ghost var was := nodes;
      Bypass(item, i);
      Passing(i);
      item.freed := true;
      nodes := nodes[..i] + nodes[i + 1..];
      GapClosed(was, i);
    }

    lemma LinkedMeans()
      requires Linked()
      ensures Distinct(nodes) && forall k :: 0 <= k < |nodes| ==> !nodes[k].freed
    {
    }

    // The nodes without the i-th form the list.
    ghost predicate Gapped(was: seq<Link<T>>, i: nat)
      requires i < |was|
      reads this, was
    {
      && (if |was| == 1 then head == null && tail == null
          else
            && head == was[if i == 0 then 1 else 0] && tail == was[if i + 1 == |was| then i - 1 else |was| - 1]
            && head.previous == null && tail.next == null)
      && (forall k :: 0 <= k < |was| && k != i ==> !was[k].freed && was[k].valid == (was[k] !in dead))
      && (forall k, l :: 0 <= k < l < |was| && k != i && l != i && (l == k + 1 || (k + 1 == i && l == i + 1)) ==>
            was[k].next == was[l] && was[l].previous == was[k])
    }

    twostate lemma Passing(i: nat)
      requires old(Linked()) && i < |nodes| && Bypassed(i)
      ensures Gapped(nodes, i)
    {
    }

    lemma GapClosed(was: seq<Link<T>>, i: nat)
      requires i < |was| && Distinct(was) && Gapped(was, i) && nodes == was[..i] + was[i + 1..]
      ensures Linked()
    {
      RemovedAt(was, i);
    }

    // What the pointers around nodes[i] are.
    lemma Neighbours(i: nat)
      requires Linked() && i < |nodes|
      ensures nodes[i].next == if i + 1 < |nodes| then nodes[i + 1] else null
      ensures nodes[i].previous == if i > 0 then nodes[i - 1] else null
      ensures nodes[i] == head <==> i == 0
      ensures nodes[i] == tail <==> i + 1 == |nodes|
    {
    }

    // Remove(link_t *). Under a lock the element only becomes invalid.
    method Remove(item: Link<T>, ghost i: nat)
      requires Valid() && i < |nodes| && nodes[i] == item
      modifies this, nodes
      ensures Valid() && locks == old(locks)
      ensures if locks > 0
              then nodes == old(nodes) && dead == old(dead) + {item}
              else nodes == old(nodes[..i] + nodes[i + 1..]) && dead == {} && item.freed
      ensures Contents() == Without(old(Contents()), {item})
    {
      if locks > 0 {
        WithoutTwice(nodes, dead, item);
        item.valid := false;
        dead := dead + {item};
      } else {
        WithoutNone(nodes);
        WithoutOne(nodes, i);
        Unlink(item, i);
        WithoutNone(nodes);
      }
    }

    method Lock()
      requires Valid()
      modifies this
      ensures Valid() && locks == old(locks) + 1 && nodes == old(nodes) && dead == old(dead)
    {
      locks := locks + 1;
    }

    // The last unlock frees what was removed meanwhile.
    method Unlock()
      requires Valid() && locks > 0
      modifies this, nodes
      ensures Valid() && locks == old(locks) - 1 && Contents() == old(Contents())
      ensures if locks > 0
              then nodes == old(nodes) && dead == old(dead)
              else nodes == old(Contents()) && dead == {}
      ensures old(dead) == {} ==> nodes == old(nodes) && dead == {}
    {
      WithoutNone(nodes);
      locks := locks - 1;
      if locks == 0 {
        Sweep();
      }
    }

    // One turn of the sweep: current leaves the chain if it is not valid.
    method SweepOne(current: Link<T>, ghost kept: seq<Link<T>>, ghost rest: seq<Link<T>>)
      returns (next: Link?<T>)
      requires Linked() && nodes == kept + rest && rest != [] && rest[0] == current
      modifies this, nodes
      ensures Linked() && locks == old(locks) && dead == old(dead)
      ensures if current in dead then current.freed && nodes == kept + rest[1..] else nodes == old(nodes)
      ensures forall i :: 0 <= i < |nodes| ==> nodes[i] in old(nodes)
      ensures if |rest| > 1 then next == rest[1] else next == null
      ensures forall n :: n in old(nodes) && old(n.freed) ==> n.freed
    {
      assert nodes[|kept|] == current;
      assert |rest| > 1 ==> nodes[|kept| + 1] == rest[1];
      next := current.next;
      if !current.valid {
        assert nodes[..|kept|] + nodes[|kept| + 1..] == kept + rest[1..];
        Unlink(current, |kept|);
      }
    }

    method Sweep()
      requires Linked() && locks == 0
      modifies this, nodes
      ensures Linked() && locks == 0 && nodes == old(Contents()) && dead == {}
      ensures Contents() == nodes
    {
      hide Without, Linked;
      ghost var kept: seq<Link<T>>, rest, whole := [], nodes, Contents();
      WithoutLive(nodes, dead);
      ghost var all := set n | n in nodes;
      HeadIsFirst();
      var current := head;
      while current != null
        invariant Linked() && locks == 0 && dead == old(dead)
        invariant nodes == kept + rest && kept + Without(rest, dead) == whole
        invariant forall i :: 0 <= i < |nodes| ==> nodes[i] in all
        invariant if rest == [] then current == null else current == rest[0]
        decreases |rest|
      {
        ghost var keep: seq<Link<T>> := if current in dead then [] else [current];
        SweepStep(kept, rest, dead, keep);
        current := SweepOne(current, kept, rest);
        kept, rest := kept + keep, rest[1..];
      }
      WithoutEmpty(rest, dead);
      WithoutNone(nodes);
      BuryDead();
    }

    lemma HeadIsFirst()
      requires Linked()
      ensures nodes == [] <==> head == null
      ensures nodes != [] ==> head == nodes[0]
    {
    }

    lemma NextOf(i: nat)
      requires Linked() && i < |nodes|
      ensures if i + 1 < |nodes| then nodes[i].next == nodes[i + 1] else nodes[i].next == null
    {
    }

    // Once no dead element is linked they may be forgotten.
    ghost method BuryDead()
      requires Linked() && forall i :: 0 <= i < |nodes| ==> nodes[i] !in dead
      modifies this
      ensures Linked() && dead == {} && nodes == old(nodes) && locks == old(locks)
    {
      dead := {};
    }
  }

  // CListCursor. Its destructor is Destroy.
  class Cursor<T> {
    var current: Link?<T>
    const list: List<T>
    ghost var pos: nat      // where in the chain current stands; its length at the end

    ghost predicate Valid()
      reads this, list, list.nodes
    {
      && list.Valid() && list.locks > 0
      && (current != null ==> pos < |list.nodes| && list.nodes[pos] == current)
    }

    // current is the first live element from index p on.
    ghost predicate StandsFrom(p: nat)
      reads this, list, list.nodes
    {
      && p <= |list.nodes| && Valid()
      && pos == FirstLive(list.nodes, list.dead, p)
      && (current == null <==> pos == |list.nodes|)
    }

    constructor (list: List<T>)
      requires list.Valid()
      modifies list
      ensures this.list == list && StandsFrom(0) && list.Valid()
      ensures list.locks == old(list.locks) + 1 && list.nodes == old(list.nodes) && list.dead == old(list.dead)
    {
      this.list := list;
      current, pos := null, 0;
      new;
      list.Lock();
      list.HeadIsFirst();
      current := list.head;
      SkipDead(0);
    }

    // The loop that both the constructor and Proceed end with.
    method SkipDead(ghost p: nat)
      requires list.Valid() && list.locks > 0 && pos == p <= |list.nodes|
      requires if p < |list.nodes| then current == list.nodes[p] else current == null
      modifies this
      ensures StandsFrom(p)
    {
      while current != null && !current.valid
        invariant p <= pos <= |list.nodes| && FirstLive(list.nodes, list.dead, pos) == FirstLive(list.nodes, list.dead, p)
        invariant if pos < |list.nodes| then current == list.nodes[pos] else current == null
        decreases |list.nodes| - pos
      {
        list.NextOf(pos);
        current := current.next;
        pos := pos + 1;
      }
    }

    method Proceed()
      requires Valid()
      modifies this
      ensures if old(current) == null then current == null && pos == old(pos) && Valid()
              else StandsFrom(old(pos) + 1)
    {
      if current == null {
        return;
      }
      list.NextOf(pos);
      current := current.next;
      pos := pos + 1;
      SkipDead(pos);
    }

    method Remove()
      requires Valid() && current != null
      modifies list, list.nodes
      ensures Valid() && current == old(current)
      ensures list.nodes == old(list.nodes) && list.dead == old(list.dead) + {current}
      ensures list.locks == old(list.locks)
    {
      list.Remove(current, pos);
    }

    method Destroy()
      requires list.Valid() && list.locks > 0
      modifies list, list.nodes
      ensures list.Valid() && list.locks == old(list.locks) - 1 && list.Contents() == old(list.Contents())
      ensures if list.locks > 0
              then list.nodes == old(list.nodes) && list.dead == old(list.dead)
              else list.nodes == old(list.Contents()) && list.dead == {}
      ensures old(list.dead) == {} ==> list.nodes == old(list.nodes) && list.dead == {}
    {
      list.Unlock();
    }
  }
}
