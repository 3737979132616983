// What an RFC 1035 encoded name means: the walk over length bytes and
// compression pointers, the labels it collects, and their escaped text.
module DnsName {

  import opened Basics

  type Label = seq<byte>

  const DOT: byte := 46
  const BACKSLASH: byte := 92
  const INDIR_MASK: byte := 0xC0
  const MAXLABEL: nat := 63

  datatype Step =
    | End                              // a zero byte: the root
    | Bad                              // the walk would leave the message
    | Hop(target: nat)                 // a compression pointer
    | Emit(octets: Label, next: nat)    // a label and the position after it

  // (b & INDIR_MASK) == INDIR_MASK. The other two "reserved" bit patterns, 01 and
  // 10, count as plain label lengths, as they do in the C code.
  predicate IsPointer(b: byte) {
    b >= INDIR_MASK
  }

  // (first & ~INDIR_MASK) << 8 | second
  function PointerOffset(first: byte, second: byte): nat
    requires IsPointer(first)
  {
    (first - INDIR_MASK) * 256 + second
  }

  function StepAt(msg: seq<byte>, pos: nat): (s: Step)
    requires pos < |msg|
    ensures s.Hop? ==> s.target < |msg|
    ensures s.Emit? ==> pos < s.next < |msg| && s.octets == msg[pos + 1..s.next] && |s.octets| > 0
  {
    if msg[pos] == 0 then End
    else if IsPointer(msg[pos]) then
      if pos + 1 >= |msg| then Bad
      else
        var offset := PointerOffset(msg[pos], msg[pos + 1]);
        if offset >= |msg| then Bad else Hop(offset)
    else if pos + msg[pos] + 1 >= |msg| then Bad
    else Emit(msg[pos + 1..pos + 1 + msg[pos]], pos + 1 + msg[pos])
  }

  // The walk from pos stays inside msg and meets its zero byte after exactly n steps.
  ghost predicate EndsIn(msg: seq<byte>, pos: nat, n: nat)
    decreases n
  {
    pos < |msg| &&
    match StepAt(msg, pos)
    case End => n == 0
    case Bad => false
    case Hop(target) => n > 0 && EndsIn(msg, target, n - 1)
    case Emit(_, next) => n > 0 && EndsIn(msg, next, n - 1)
  }

  ghost predicate IsName(msg: seq<byte>, pos: nat) {
    exists n: nat :: EndsIn(msg, pos, n)
  }

  ghost function Steps(msg: seq<byte>, pos: nat): (n: nat)
    requires IsName(msg, pos)
    ensures EndsIn(msg, pos, n)
  {
    var n: nat :| EndsIn(msg, pos, n); n
  }

  // The labels met by a walk of n steps.
  function LabelsIn(msg: seq<byte>, pos: nat, n: nat): (ls: seq<Label>)
    requires EndsIn(msg, pos, n)
    decreases n
  {
    match StepAt(msg, pos)
    case End => []
    case Hop(target) => LabelsIn(msg, target, n - 1)
    case Emit(octets, next) => [octets] + LabelsIn(msg, next, n - 1)
  }

  ghost function Labels(msg: seq<byte>, pos: nat): seq<Label>
    requires IsName(msg, pos)
  {
    LabelsIn(msg, pos, Steps(msg, pos))
  }

  // Bytes from pos up to and including the first pointer or zero byte.
  function WireLength(msg: seq<byte>, pos: nat): (n: nat)
    requires pos < |msg|
    decreases |msg| - pos
  {
    match StepAt(msg, pos)
    case End => 1
    case Bad => 0
    case Hop(_) => 2
    case Emit(_, next) => next - pos + WireLength(msg, next)
  }

  // ---- text --------------------------------------------------------------

  predicate NeedsEscape(b: byte) {
    b == DOT || b == BACKSLASH
  }

  function EscapeByte(b: byte): seq<byte> {
    if NeedsEscape(b) then [BACKSLASH, b] else [b]
  }

  function Escape(l: seq<byte>): seq<byte> {
    if l == [] then [] else Escape(l[..|l| - 1]) + EscapeByte(l[|l| - 1])
  }

  function Segment(l: Label): seq<byte> {
    Escape(l) + [DOT]
  }

  // The labels, each followed by a period.
  function Dotted(ls: seq<Label>): seq<byte> {
    if ls == [] then [] else Dotted(ls[..|ls| - 1]) + Segment(ls[|ls| - 1])
  }

  // The escaped labels joined by periods.
  function Text(ls: seq<Label>): seq<byte> {
    if ls == [] then []
    else if |ls| == 1 then Escape(ls[0])
    else Text(ls[..|ls| - 1]) + [DOT] + Escape(ls[|ls| - 1])
  }

  lemma EmptyTexts()
    ensures Escape([]) == [] && Dotted([]) == [] && Text([]) == []
  {
  }

  lemma SegmentIs(l: Label)
    ensures Segment(l) == Escape(l) + [DOT]
  {
  }

  lemma EscapeSnoc(l: seq<byte>, b: byte)
    ensures Escape(l + [b]) == Escape(l) + EscapeByte(b)
  {
    assert (l + [b])[..|l|] == l;
  }

  lemma DottedSnoc(ls: seq<Label>, l: Label)
    ensures Dotted(ls + [l]) == Dotted(ls) + Segment(l)
  {
    assert (ls + [l])[..|ls|] == ls;
  }

  lemma TextSnoc(ls: seq<Label>, l: Label)
    ensures Text(ls + [l]) == if ls == [] then Escape(l) else Text(ls) + [DOT] + Escape(l)
  {
    assert (ls + [l])[..|ls|] == ls;
  }

  lemma {:induction false} EscapeConcat(a: seq<byte>, b: seq<byte>)
    ensures Escape(a + b) == Escape(a) + Escape(b)
  {
    hide *;
    if b == [] {
      assert a + b == a;
      EmptyTexts();
    } else {
      var init, last := b[..|b| - 1], b[|b| - 1];
      assert b == init + [last] && a + b == (a + init) + [last];
      EscapeConcat(a, init);
      EscapeSnoc(init, last);
      EscapeSnoc(a + init, last);
    }
  }

  lemma {:induction false} DottedConcat(a: seq<Label>, b: seq<Label>)
    ensures Dotted(a + b) == Dotted(a) + Dotted(b)
  {
    hide *;
    if b == [] {
      assert a + b == a;
      EmptyTexts();
    } else {
      var init, last := b[..|b| - 1], b[|b| - 1];
      assert b == init + [last] && a + b == (a + init) + [last];
      DottedConcat(a, init);
      DottedSnoc(init, last);
      DottedSnoc(a + init, last);
    }
  }

  lemma {:induction false} DottedIsTextAndPeriod(ls: seq<Label>)
    requires ls != []
    ensures Dotted(ls) == Text(ls) + [DOT]
  {
    hide *;
    var init, last := ls[..|ls| - 1], ls[|ls| - 1];
    assert ls == init + [last];
    DottedSnoc(init, last);
    TextSnoc(init, last);
    SegmentIs(last);
    if init == [] {
      EmptyTexts();
    } else {
      DottedIsTextAndPeriod(init);
    }
  }

  // ---- the walk is deterministic and loop-free when it ends -----------------

  lemma {:induction false} StepsUnique(msg: seq<byte>, pos: nat, a: nat, b: nat)
    requires EndsIn(msg, pos, a) && EndsIn(msg, pos, b)
    ensures a == b
    decreases a
  {
    match StepAt(msg, pos)
    case End =>
    case Hop(target) => StepsUnique(msg, target, a - 1, b - 1);
    case Emit(_, next) => StepsUnique(msg, next, a - 1, b - 1);
  }

  // The position after k of the n steps.
  ghost function PositionAfter(msg: seq<byte>, pos: nat, n: nat, k: nat): (p: nat)
    requires EndsIn(msg, pos, n) && k <= n
    ensures p < |msg| && EndsIn(msg, p, n - k)
    decreases k
  {
    if k == 0 then pos
    else
      match StepAt(msg, pos)
      case Hop(target) => PositionAfter(msg, target, n - 1, k - 1)
      case Emit(_, next) => PositionAfter(msg, next, n - 1, k - 1)
  }

  lemma {:induction false} Pigeonhole(s: seq<nat>, m: nat)
    requires forall i :: 0 <= i < |s| ==> s[i] < m
    requires forall i, j :: 0 <= i < j < |s| ==> s[i] != s[j]
    ensures |s| <= m
    decreases m
  {
    if s == [] {
    } else {
      assert s[0] < m;
      if m - 1 in s {
        var k :| 0 <= k < |s| && s[k] == m - 1;
        Pigeonhole(s[..k] + s[k + 1..], m - 1);
      } else {
        Pigeonhole(s[1..], m - 1);
      }
    }
  }

  // A walk that ends never stands twice on one byte, so it takes fewer steps
  // than the message has bytes.
  lemma {:induction false} EndingWalkIsShort(msg: seq<byte>, pos: nat, n: nat)
    requires EndsIn(msg, pos, n)
    ensures n < |msg|
  {
    var trace := seq(n + 1, (k: nat) requires k <= n => PositionAfter(msg, pos, n, k));
    forall i, j | 0 <= i < j < |trace| ensures trace[i] != trace[j] {
      if trace[i] == trace[j] {
        StepsUnique(msg, trace[i], n - i, n - j);
      }
    }
    Pigeonhole(trace, |msg|);
  }

  // A name in text needs no labels exactly when its walk collects none.
  lemma {:induction false} LabelsNonEmpty(msg: seq<byte>, pos: nat, n: nat)
    requires EndsIn(msg, pos, n)
    ensures forall l :: l in LabelsIn(msg, pos, n) ==> |l| > 0
    decreases n
  {
    match StepAt(msg, pos)
    case End =>
    case Hop(target) => LabelsNonEmpty(msg, target, n - 1);
    case Emit(_, next) => LabelsNonEmpty(msg, next, n - 1);
  }
}
