// ares_expand_name.c: the validating pass that measures a name, and the
// unchecked pass that writes it into a buffer of exactly that size.
module DnsExpand {
  import opened Basics
  import opened DnsName

  datatype Status = Success | BadName

  // The walk from start stands at p after k steps with the labels done collected.
  ghost predicate Reaches(msg: seq<byte>, start: nat, k: nat, done: seq<Label>, p: nat) {
    && (forall n: nat :: EndsIn(msg, start, n) ==> n >= k && EndsIn(msg, p, n - k))
    && (forall m: nat :: EndsIn(msg, p, m) ==>
         EndsIn(msg, start, k + m) && LabelsIn(msg, start, k + m) == done + LabelsIn(msg, p, m))
  }

  // The step at p goes to next and collects ls: nothing for a pointer, else one label.
  predicate StepsTo(msg: seq<byte>, p: nat, ls: seq<Label>, next: nat) {
    p < |msg| &&
    match StepAt(msg, p)
    case Hop(target) => ls == [] && next == target
    case Emit(l, at) => ls == [l] && next == at
    case _ => false
  }

  // One step back from where the walk arrives.
  lemma StepBack(msg: seq<byte>, p: nat, next: nat, ls: seq<Label>, m: nat)
    requires StepsTo(msg, p, ls, next) && EndsIn(msg, next, m)
    ensures EndsIn(msg, p, m + 1) && LabelsIn(msg, p, m + 1) == ls + LabelsIn(msg, next, m)
  {
    assert [] + LabelsIn(msg, next, m) == LabelsIn(msg, next, m);
  }

  lemma StepForward(msg: seq<byte>, p: nat, ls: seq<Label>, next: nat, m: nat)
    requires StepsTo(msg, p, ls, next) && EndsIn(msg, p, m)
    ensures m > 0 && EndsIn(msg, next, m - 1)
  {
  }

  lemma ReachesNext(msg: seq<byte>, start: nat, k: nat, done: seq<Label>, p: nat, ls: seq<Label>, next: nat)
    requires StepsTo(msg, p, ls, next) && Reaches(msg, start, k, done, p)
    ensures Reaches(msg, start, k + 1, done + ls, next)
  {
    hide EndsIn, LabelsIn, StepsTo;
    forall n: nat | EndsIn(msg, start, n) ensures n >= k + 1 && EndsIn(msg, next, n - (k + 1)) {
      StepForward(msg, p, ls, next, n - k);
    }
    forall m: nat | EndsIn(msg, next, m)
      ensures EndsIn(msg, start, k + 1 + m)
      ensures LabelsIn(msg, start, k + 1 + m) == done + ls + LabelsIn(msg, next, m)
    {
      StepBack(msg, p, next, ls, m);
      assert k + 1 + m == k + (m + 1);
      assert done + (ls + LabelsIn(msg, next, m)) == done + ls + LabelsIn(msg, next, m);
    }
  }

  lemma ReachesStart(msg: seq<byte>, start: nat)
    ensures Reaches(msg, start, 0, [], start)
    ensures Dotted([]) == [] && Text([]) == []
  {
  }

  lemma ReachesEnd(msg: seq<byte>, start: nat, k: nat, done: seq<Label>, p: nat)
    requires p < |msg| && Reaches(msg, start, k, done, p) && msg[p] == 0
    ensures IsName(msg, start) && Labels(msg, start) == done
  {
    assert EndsIn(msg, p, 0);
    assert EndsIn(msg, start, k + 0);
    StepsUnique(msg, start, k, Steps(msg, start));
  }

  // A walk that leaves the message, or goes on for |msg| steps, never ends.
  lemma ReachesBad(msg: seq<byte>, start: nat, k: nat, done: seq<Label>, p: nat)
    requires Reaches(msg, start, k, done, p)
    requires k >= |msg| || p >= |msg| || StepAt(msg, p) == Bad
    ensures !IsName(msg, start)
  {
    forall n: nat | EndsIn(msg, start, n) ensures false {
      EndingWalkIsShort(msg, start, n);
    }
  }

  lemma EscapeByteIs(b: byte)
    ensures EscapeByte(b) == if b == DOT || b == BACKSLASH then [BACKSLASH, b] else [b]
  {
  }

  lemma EscapeExtend(l: seq<byte>, k: nat)
    requires k < |l|
    ensures Escape(l[..k + 1]) == Escape(l[..k]) + EscapeByte(l[k])
  {
    hide *;
    assert l[..k + 1] == l[..k] + [l[k]];
    EscapeSnoc(l[..k], l[k]);
  }

  lemma EscapeSplit(l: seq<byte>, k: nat)
    requires k < |l|
    ensures |Escape(l[..k + 1])| <= |Escape(l)|
  {
    assert l == l[..k + 1] + l[k + 1..];
    EscapeConcat(l[..k + 1], l[k + 1..]);
  }

  // The label loop of name_length.
  method EscapedLength(l: seq<byte>) returns (n: nat)
    ensures n == |Segment(l)|
  {
    hide *;
    EmptyTexts();
    SegmentIs(l);
    assert l[..0] == [];
    n := 0;
    for i := 0 to |l|
      invariant n == |Escape(l[..i])|
    {
      EscapeExtend(l, i);
      EscapeByteIs(l[i]);
      n := n + if l[i] == DOT || l[i] == BACKSLASH then 2 else 1;
    }
    assert l[..|l|] == l;
    n := n + 1;
  }

  // One turn of name_length's loop: where encoded moves to, or -1 when it would
  // leave the message, and what the turn adds to n.
  method NameStep(msg: seq<byte>, encoded: nat) returns (next: int, add: nat)
    requires encoded < |msg| && msg[encoded] != 0
    ensures next < |msg|
    ensures match StepAt(msg, encoded)
            case End => false
            case Bad => next < 0
            case Hop(target) => next == target && add == 0 && IsPointer(msg[encoded])
            case Emit(l, at) => next == at > encoded && add == |Segment(l)| && !IsPointer(msg[encoded])
  {
    if IsPointer(msg[encoded]) {
      if encoded + 1 >= |msg| {
        return -1, 0;
      }
      var offset := PointerOffset(msg[encoded], msg[encoded + 1]);
      if offset >= |msg| {
        return -1, 0;
      }
      return offset, 0;
    }
    next := encoded + 1 + msg[encoded];
    if next >= |msg| {
      return -1, 0;
    }
    hide Segment;
    add := EscapedLength(msg[encoded + 1..next]);
  }

  // The ghost side of a turn.
  lemma ReachesStep(msg: seq<byte>, start: nat, k: nat, done: seq<Label>, p: nat, next: int, add: nat)
      returns (done': seq<Label>)
    requires p < |msg| && Reaches(msg, start, k, done, p)
    requires match StepAt(msg, p)
             case End => false
             case Bad => next < 0
             case Hop(target) => next == target && add == 0
             case Emit(l, at) => next == at && add == |Segment(l)|
    ensures next < 0 ==> !IsName(msg, start)
    ensures next >= 0 ==> Reaches(msg, start, k + 1, done', next)
    ensures next >= 0 ==> |Dotted(done')| == |Dotted(done)| + add
  {
    hide Reaches, EndsIn, IsName, Dotted, Segment;
    done' := done;
    match StepAt(msg, p)
    case Bad => ReachesBad(msg, start, k, done, p);
    case Hop(target) =>
      ReachesNext(msg, start, k, done, p, [], target);
      assert done + [] == done;
    case Emit(l, at) =>
      ReachesNext(msg, start, k, done, p, [l], at);
      DottedSnoc(done, l);
      done' := done + [l];
  }

  // name_length: the length of the expanded text, or -1.
  method NameLength(msg: seq<byte>, start: nat) returns (r: int)
    requires start <= |msg|
    ensures if IsName(msg, start) then r == |Text(Labels(msg, start))| else r == -1
  {
    hide *;
    ReachesStart(msg, start);
    ghost var k: nat, done: seq<Label> := 0, [];
    var n: nat, indir, encoded: nat := 0, 0, start;
    if encoded == |msg| {
      ReachesBad(msg, start, k, done, encoded);
      return -1;
    }
    while msg[encoded] != 0
      invariant encoded < |msg| && indir <= k && n == |Dotted(done)|
      invariant Reaches(msg, start, k, done, encoded)
      decreases |msg| - indir, |msg| - encoded
    {
      var next, add := NameStep(msg, encoded);
      done := ReachesStep(msg, start, k, done, encoded, next, add);
      if next < 0 {
        return -1;
      }
      k := k + 1;
      if IsPointer(msg[encoded]) {
        indir := indir + 1;
        if indir > |msg| {
          ReachesBad(msg, start, k, done, next);
          return -1;
        }
      }
      n, encoded := n + add, next;
    }
    ReachesEnd(msg, start, k, done, encoded);
    if done != [] {
      DottedIsTextAndPeriod(done);
    }
    r := if n != 0 then n - 1 else n;
  }

  // One octet of the label loop, with the backslash it may need.
  method WriteByte(b: byte, s: array<byte>, start: nat) returns (q: nat)
    requires start + |EscapeByte(b)| <= s.Length
    modifies s
    ensures q == start + |EscapeByte(b)|
    ensures s[..q] == old(s[..start]) + EscapeByte(b)
  {
    q := start;
    if b == DOT || b == BACKSLASH {
      s[q] := BACKSLASH;
      q := q + 1;
    }
    s[q] := b;
    q := q + 1;
  }

  // The label loop of ares_expand_name, with no check on where it writes.
  method WriteLabel(l: seq<byte>, s: array<byte>, start: nat) returns (q: nat)
    requires start + |Segment(l)| <= s.Length
    modifies s
    ensures q == start + |Segment(l)|
    ensures s[..q] == old(s[..start]) + Segment(l)
  {
    hide *;
    EmptyTexts();
    SegmentIs(l);
    assert l[..0] == [];
    ghost var pre := s[..start];
    q := start;
    for i := 0 to |l|
      invariant q == start + |Escape(l[..i])| < s.Length
      invariant s[..q] == pre + Escape(l[..i])
    {
      EscapeExtend(l, i);
      EscapeSplit(l, i);
      q := WriteByte(l[i], s, q);
      assert pre + Escape(l[..i]) + EscapeByte(l[i]) == pre + Escape(l[..i + 1]);
    }
    assert l[..|l|] == l;
    s[q] := DOT;
    q := q + 1;
    assert s[..q] == pre + Escape(l) + [DOT];
  }

  // One label of the walk fits: it is part of the text that was measured.
  lemma Fits(all: seq<Label>, done: seq<Label>, l: Label, rest: seq<Label>)
    requires all == done + ([l] + rest)
    ensures |Dotted(done)| + |Segment(l)| <= |Dotted(all)|
    ensures Dotted(done + [l]) == Dotted(done) + Segment(l)
    ensures all == (done + [l]) + rest
  {
    assert all == (done + [l]) + rest;
    DottedConcat(done + [l], rest);
    DottedSnoc(done, l);
  }

  // The walk stands at p, todo steps from its end, with the labels done expanded.
  ghost predicate Expanding(msg: seq<byte>, all: seq<Label>, p: nat, todo: nat, done: seq<Label>) {
    EndsIn(msg, p, todo) && all == done + LabelsIn(msg, p, todo)
  }

  lemma AtStart(msg: seq<byte>, start: nat, all: seq<Label>)
    requires IsName(msg, start) && all == Labels(msg, start)
    ensures start < |msg| && Expanding(msg, all, start, Steps(msg, start), [])
    ensures Dotted([]) == []
  {
    assert EndsIn(msg, start, Steps(msg, start));
  }

  lemma AtZero(msg: seq<byte>, all: seq<Label>, p: nat, todo: nat, done: seq<Label>)
    requires Expanding(msg, all, p, todo, done) && msg[p] == 0
    ensures done == all && WireLength(msg, p) == 1
  {
    assert done + [] == done;
  }

  lemma AtPointer(msg: seq<byte>, all: seq<Label>, p: nat, todo: nat, done: seq<Label>)
    requires Expanding(msg, all, p, todo, done) && IsPointer(msg[p])
    ensures todo > 0 && p + 1 < |msg| && WireLength(msg, p) == 2
    ensures var target := PointerOffset(msg[p], msg[p + 1]);
      target < |msg| && Expanding(msg, all, target, todo - 1, done)
  {
  }

  lemma AtLabel(msg: seq<byte>, all: seq<Label>, p: nat, todo: nat, done: seq<Label>)
    requires Expanding(msg, all, p, todo, done) && msg[p] != 0 && !IsPointer(msg[p])
    ensures todo > 0
    ensures var next := p + 1 + msg[p];
      next < |msg| && WireLength(msg, p) == next - p + WireLength(msg, next) &&
      var l := msg[p + 1..next];
      && Expanding(msg, all, next, todo - 1, done + [l])
      && |Dotted(done)| + |Segment(l)| <= |Dotted(all)|
      && Dotted(done + [l]) == Dotted(done) + Segment(l)
  {
    hide Dotted, Segment;
    var next := p + 1 + msg[p];
    Fits(all, done, msg[p + 1..next], LabelsIn(msg, next, todo - 1));
  }

  // The unchecked second walk of ares_expand_name.
  method ExpandInto(msg: seq<byte>, start: nat, s: array<byte>, ghost all: seq<Label>)
      returns (q: nat, enclen: int)
    requires IsName(msg, start) && all == Labels(msg, start) && s.Length == |Dotted(all)|
    modifies s
    ensures q == s.Length && s[..] == Dotted(all)
    ensures enclen == WireLength(msg, start)
  {
    hide *;
    ghost var todo: nat, done: seq<Label> := Steps(msg, start), [];
    AtStart(msg, start, all);
    var p: nat, indir := start, false;
    q, enclen := 0, 0;
    while msg[p] != 0
      invariant p < |msg| && Expanding(msg, all, p, todo, done)
      invariant q == |Dotted(done)| <= s.Length && s[..q] == Dotted(done)
      invariant WireLength(msg, start) == if indir then enclen else p - start + WireLength(msg, p)
      decreases todo
    {
      if IsPointer(msg[p]) {
        AtPointer(msg, all, p, todo, done);
        if !indir {
          enclen, indir := p + 2 - start, true;
        }
        p := PointerOffset(msg[p], msg[p + 1]);
      } else {
        AtLabel(msg, all, p, todo, done);
        var next: nat := p + 1 + msg[p];
        q := WriteLabel(msg[p + 1..next], s, q);
        done := done + [msg[p + 1..next]];
        p := next;
      }
      todo := todo - 1;
    }
    AtZero(msg, all, p, todo, done);
    if !indir {
      enclen := p + 1 - start;
    }
  }

  lemma TextEmpty(msg: seq<byte>, start: nat)
    requires IsName(msg, start)
    ensures Text(Labels(msg, start)) == [] <==> Labels(msg, start) == []
  {
    var ls := Labels(msg, start);
    if ls != [] {
      LabelsNonEmpty(msg, start, Steps(msg, start));
      var l := ls[|ls| - 1];
      assert |l| > 0;
      EscapeSnoc(l[..|l| - 1], l[|l| - 1]);
      assert l == l[..|l| - 1] + [l[|l| - 1]];
    }
  }

  // ares_expand_name. Nothing in the second walk is checked at run time: that it
  // stays inside msg and fills s exactly is what the first walk established.
  method ExpandName(msg: seq<byte>, start: nat)
      returns (status: Status, s: array<byte>, enclen: int)
    requires start <= |msg|
    ensures status == Success <==> IsName(msg, start)
    ensures IsName(msg, start) ==>
      && s[..] == Text(Labels(msg, start)) + [0]
      && enclen == if Labels(msg, start) == [] then 1 else WireLength(msg, start)
  {
    var nlen := NameLength(msg, start);
    if nlen < 0 {
      s := new byte[0];
      return BadName, s, 0;
    }
    hide *;
    ghost var all := Labels(msg, start);
    TextEmpty(msg, start);
    s := new byte[nlen + 1];
    if nlen == 0 {
      s[0] := 0;
      return Success, s, 1;
    }
    DottedIsTextAndPeriod(all);
    var q;
    q, enclen := ExpandInto(msg, start, s, all);
    s[q - 1] := 0;    // the walk wrote a period: nlen > 0
    status := Success;
  }

  // *enclen is the encoded length except for a pointer that leads to the root without
  // passing a label, where it is 1 although the pointer takes two bytes.
  lemma EnclenExact(msg: seq<byte>, start: nat)
    requires IsName(msg, start)
    ensures WireLength(msg, start) == (if Labels(msg, start) == [] then 1 else WireLength(msg, start))
      <==> !(Labels(msg, start) == [] && IsPointer(msg[start]))
  {
    var n := Steps(msg, start);
    assert EndsIn(msg, start, n);
  }

  lemma EnclenOfRootPointer()
    ensures var msg: seq<byte> := [0, INDIR_MASK, 0];
      IsName(msg, 1) && Labels(msg, 1) == [] && WireLength(msg, 1) == 2
  {
    var msg: seq<byte> := [0, INDIR_MASK, 0];
    assert StepAt(msg, 1) == Hop(0);
    assert EndsIn(msg, 0, 0) && EndsIn(msg, 1, 1);
    StepsUnique(msg, 1, 1, Steps(msg, 1));
  }
}
