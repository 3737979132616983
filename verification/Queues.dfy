// src/Vector.h and src/Queue.cpp: a queue of lines kept in an unordered array, whose
// order is carried by priorities that age with every insertion.
module Queues {

  import opened Basics

  type Line = string

  datatype Item = Item(priority: int, line: Line)

  const MAX_QUEUE_SIZE: nat := 500

  // CVector without pre-allocation: realloc keeps list at exactly m_Count elements.
  class Vector<T> {
    var list: seq<T>

    constructor ()
      ensures list == []
    {
      list := [];
    }

    method Insert(item: T)
      modifies this
      ensures list == old(list) + [item]
    {
      list := list + [item];
    }

    // The last element takes the place of the removed one.
    method Remove(index: nat)
      requires index < |list|
      modifies this
      ensures list == SwapRemoved(old(list), index)
    {
      var last := list[|list| - 1];
      list := list[index := last];
      list := list[..|list| - 1];
    }

    method Clear()
      modifies this
      ensures list == []
    {
      list := [];
    }
  }

  function SwapRemoved<T>(s: seq<T>, i: nat): (r: seq<T>)
    requires i < |s|
    ensures |r| == |s| - 1 && forall j :: 0 <= j < |r| ==> r[j] == if j == i then s[|s| - 1] else s[j]
  {
    s[i := s[|s| - 1]][..|s| - 1]
  }

  // Swap-removal loses exactly the one element, whatever it does to the order.
  lemma SwapRemovedMultiset<T>(s: seq<T>, i: nat)
    requires i < |s|
    ensures multiset(SwapRemoved(s, i)) == multiset(s) - multiset{s[i]}
  {
    var n, last := |s| - 1, s[|s| - 1];
    var init := s[..n];
    assert s == init + [last];
    if i == n {
      assert SwapRemoved(s, i) == init;
    } else {
      assert SwapRemoved(s, i) == init[i := last];
      assert s[i] == init[i];
    }
  }

  // ---- ageing ---------------------------------------------------------------------

  function Older(x: Item): Item {
    Item(x.priority - 1, x.line)
  }

  function Aged(s: seq<Item>): (r: seq<Item>)
    ensures |r| == |s| && forall i :: 0 <= i < |s| ==> r[i] == Older(s[i])
  {
    if s == [] then [] else Aged(s[..|s| - 1]) + [Older(s[|s| - 1])]
  }

  // Ageing is one-to-one, so it keeps every multiplicity.
  lemma {:induction false} AgedMultiset(s: seq<Item>, x: Item)
    ensures multiset(Aged(s))[Older(x)] == multiset(s)[x]
  {
    hide *;
    AgedLast(s);
    if s != [] {
      var init, last := s[..|s| - 1], s[|s| - 1];
      AgedMultiset(init, x);
      SnocCount(init, last, x);
      SnocCount(Aged(init), Older(last), Older(x));
      OlderIsOneToOne(last, x);
      assert s == init + [last];
    }
  }

  lemma SnocCount(s: seq<Item>, x: Item, y: Item)
    ensures multiset(s + [x])[y] == multiset(s)[y] + if x == y then 1 else 0
  {
  }

  lemma AgedLast(s: seq<Item>)
    ensures Aged(s) == if s == [] then [] else Aged(s[..|s| - 1]) + [Older(s[|s| - 1])]
  {
  }

  lemma OlderIsOneToOne(x: Item, y: Item)
    ensures Older(x) == Older(y) <==> x == y
  {
  }

  lemma AgedPermutation(a: seq<Item>, b: seq<Item>)
    requires multiset(a) == multiset(b)
    ensures multiset(Aged(a)) == multiset(Aged(b))
  {
    forall y: Item ensures multiset(Aged(a))[y] == multiset(Aged(b))[y] {
      var x := Item(y.priority + 1, y.line);
      assert Older(x) == y;
      AgedMultiset(a, x);
      AgedMultiset(b, x);
    }
  }

  // Oldest first: priorities strictly increase, and none is positive.
  ghost predicate Ordered(s: seq<Item>) {
    && (forall i, j :: 0 <= i < j < |s| ==> s[i].priority < s[j].priority)
    && (forall i :: 0 <= i < |s| ==> s[i].priority <= 0)
  }

  function LinesOf(s: seq<Item>): (r: seq<Line>)
    ensures |r| == |s| && forall i :: 0 <= i < |s| ==> r[i] == s[i].line
  {
    seq(|s|, i requires 0 <= i < |s| => s[i].line)
  }

  // The item of least priority is the oldest one.
  lemma LeastIsOldest(list: seq<Item>, fifo: seq<Item>, k: nat)
    requires multiset(list) == multiset(fifo) && Ordered(fifo) && k < |list|
    requires forall i :: 0 <= i < |list| ==> list[k].priority <= list[i].priority
    ensures fifo != [] && list[k] == fifo[0]
  {
    assert list[k] in multiset(fifo);
    assert fifo[0] in multiset(list);
  }

  lemma SameSize(list: seq<Item>, fifo: seq<Item>)
    requires multiset(list) == multiset(fifo)
    ensures |list| == |fifo| && forall i :: 0 <= i < |list| ==> list[i] in fifo
  {
    assert |multiset(list)| == |multiset(fifo)|;
    assert forall i :: 0 <= i < |list| ==> list[i] in multiset(fifo);
  }

  lemma EnqueuedInOrder(fifo: seq<Item>, line: Line)
    requires Ordered(fifo)
    ensures Ordered(Aged(fifo) + [Item(0, line)])
    ensures LinesOf(Aged(fifo) + [Item(0, line)]) == LinesOf(fifo) + [line]
  {
  }

  // What QueueItem does to the array and to the queue it stands for.
  lemma Enqueued(list: seq<Item>, fifo: seq<Item>, line: Line)
    requires multiset(list) == multiset(fifo) && Ordered(fifo)
    ensures multiset(Aged(list) + [Item(0, line)]) == multiset(Aged(fifo) + [Item(0, line)])
    ensures Ordered(Aged(fifo) + [Item(0, line)])
    ensures LinesOf(Aged(fifo) + [Item(0, line)]) == LinesOf(fifo) + [line]
  {
    hide *;
    AgedPermutation(list, fifo);
    EnqueuedInOrder(fifo, line);
  }

  lemma DequeuedInOrder(fifo: seq<Item>)
    requires Ordered(fifo) && fifo != []
    ensures Ordered(fifo[1..])
    ensures LinesOf(fifo)[0] == fifo[0].line && LinesOf(fifo[1..]) == LinesOf(fifo)[1..]
  {
  }

  // What DequeueItem does, removing the k-th slot of the array.
  lemma Dequeued(list: seq<Item>, fifo: seq<Item>, k: nat)
    requires multiset(list) == multiset(fifo) && Ordered(fifo) && fifo != []
    requires k < |list| && list[k] == fifo[0]
    ensures multiset(SwapRemoved(list, k)) == multiset(fifo[1..]) && Ordered(fifo[1..])
    ensures LinesOf(fifo)[0] == list[k].line && LinesOf(fifo[1..]) == LinesOf(fifo)[1..]
  {
    hide *;
    SwapRemovedMultiset(list, k);
    DequeuedInOrder(fifo);
    assert fifo == [fifo[0]] + fifo[1..];
  }

  lemma ValidMeans(q: Queue)
    requires q.Valid()
    ensures multiset(q.items.list) == multiset(q.fifo) && Ordered(q.fifo)
    ensures |q.items.list| == |q.fifo| == |q.Lines()|
  {
    SameSize(q.items.list, q.fifo);
  }

  lemma ValidFrom(q: Queue)
    requires multiset(q.items.list) == multiset(q.fifo) && Ordered(q.fifo)
    ensures q.Valid()
  {
  }

  class Queue {
    const items: Vector<Item>
    ghost var fifo: seq<Item>       // the same items in the order of insertion

    ghost predicate Valid()
      reads this, items
    {
      multiset(items.list) == multiset(fifo) && Ordered(fifo)
    }

    ghost function Lines(): seq<Line>
      reads this
    {
      LinesOf(fifo)
    }

    constructor ()
      ensures Valid() && Lines() == [] && fresh(items)
    {
      items := new Vector<Item>();
      fifo := [];
    }

    method GetLength() returns (n: nat)
      requires Valid()
      ensures n == |Lines()|
    {
      SameSize(items.list, fifo);
      n := |items.list|;
    }

    method PeekItem() returns (line: Option<Line>)
      requires Valid()
      ensures line == if Lines() == [] then None else Some(Lines()[0])
    {
      SameSize(items.list, fifo);
      var lowest, that := 99999, None;
      ghost var k := 0;
      for i := 0 to |items.list|
        invariant forall j :: 0 <= j < i ==> lowest <= items.list[j].priority
        invariant that == None <==> i == 0
        invariant that != None ==>
          k < i && lowest == items.list[k].priority && that == Some(items.list[k].line)
        invariant that == None ==> lowest == 99999
      {
        if items.list[i].priority < lowest {
          lowest, that, k := items.list[i].priority, Some(items.list[i].line), i;
        }
      }
      if that != None {
        LeastIsOldest(items.list, fifo, k);
      }
      return that;
    }

    method DequeueItem() returns (line: Option<Line>)
      requires Valid()
      modifies this, items
      ensures Valid()
      ensures if old(Lines()) == [] then line == None && Lines() == []
              else line == Some(old(Lines())[0]) && Lines() == old(Lines())[1..]
    {
      hide Valid, Ordered, LinesOf, SwapRemoved;
      ValidMeans(this);
      if items.list == [] {
        return None;
      }
      var index := OldestIndex();
      Dequeued(items.list, fifo, index);
      line := Some(items.list[index].line);
      items.Remove(index);
      fifo := fifo[1..];
      ValidFrom(this);
    }

    // The loop of DequeueItem.
    method OldestIndex() returns (index: nat)
      requires Valid() && items.list != []
      ensures index < |items.list| && fifo != [] && items.list[index] == fifo[0]
    {
      index := 0;
      for i := 0 to |items.list|
        invariant index < |items.list| && (i > 0 ==> index < i) && (i == 0 ==> index == 0)
        invariant forall j :: 0 <= j < i ==> items.list[index].priority <= items.list[j].priority
      {
        if i == 0 || items.list[i].priority < items.list[index].priority {
          index := i;
        }
      }
      LeastIsOldest(items.list, fifo, index);
    }

    // A full queue drops the line.
    method QueueItem(line: Line) returns (ok: bool)
      requires Valid()
      modifies this, items
      ensures Valid() && ok == (|old(Lines())| < 500)
      ensures Lines() == if ok then old(Lines()) + [line] else old(Lines())
    {
      hide Valid, Ordered, LinesOf, Aged;
      ValidMeans(this);
      if |items.list| >= MAX_QUEUE_SIZE {
        return false;
      }
      Enqueued(items.list, fifo, line);
      Age();
      items.Insert(Item(0, line));
      fifo := Aged(fifo) + [Item(0, line)];
      ValidFrom(this);
      ok := true;
    }

    // The loop of QueueItem.
    method Age()
      modifies items
      ensures items.list == Aged(old(items.list))
    {
      ghost var was := items.list;
      for i := 0 to |items.list|
        invariant |items.list| == |was|
        invariant forall j :: 0 <= j < i ==> items.list[j] == Older(was[j])
        invariant forall j :: i <= j < |was| ==> items.list[j] == was[j]
      {
        items.list := items.list[i := Older(items.list[i])];
      }
      assert items.list == Aged(was);
    }

    method Clear()
      modifies this, items
      ensures Valid() && Lines() == []
    {
      items.Clear();
      fifo := [];
    }
  }
}
