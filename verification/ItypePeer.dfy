// The values that the other side writes, bnctcl/scripts/itype.tcl, as the parser of
// php/itype.php reads them.
module ItypePeer {
  import opened Itype

  // What stands behind the backslash for a character that is escaped. Inside a list the
  // parser has already put line breaks back when it comes to the element.
  function Behind(c: char, deep: bool): char {
    if c == '\r' && !deep then 'r' else if c == '\n' && !deep then 'n' else c
  }

  predicate Escaped(c: char) {
    c == '\\' || c == '\r' || c == '\n' || c == '{' || c == '}' || c == '[' || c == ']' || c == '(' || c == ')'
  }

  // itype_escape
  function Write(s: string, deep: bool): string {
    if s == [] then []
    else (if Escaped(s[0]) then ['\\', Behind(s[0], deep)] else [s[0]]) + Write(s[1..], deep)
  }

  predicate Whole(item: Item)
    decreases item
  {
    match item
    case ListItem(items) => forall k :: 0 <= k < |items| ==> Whole(items[k])
    case EmptyItem => false
    case _ => true
  }

  // itype_string, itype_exception and itype_list_create to itype_list_end
  function WriteItem(item: Item, deep: bool): string
    decreases item
  {
    match item
    case StringItem(s) => "(" + Write(s, deep) + ")"
    case ExceptionItem(text) => "[" + Write(text, deep) + "]"
    case ListItem(items) => "{" + WriteItems(items, deep) + "}"
    case EmptyItem => []
  }

  function WriteItems(items: seq<Item>, deep: bool): string
    decreases items
  {
    if items == [] then [] else WriteItem(items[0], deep) + WriteItems(items[1..], deep)
  }

  // ---- characters ------------------------------------------------------------------------

  // What an escaped character becomes: n and r are line breaks, every other is itself. In a
  // list the backslash stays before it.
  lemma EscapedArrives(d: char, rest: string, st: State)
    requires !st.done && !st.escape && st.kind != Blank
    ensures Feed(['\\', d] + rest, st)
         == Feed(rest, st.(data := st.data + (if st.kind == Lst then ['\\'] else [])
                                   + [if d == 'n' then '\n' else if d == 'r' then '\r' else d],
                           used := st.used + 2))
  {
    hide Feed, Next;
    NextTwo(d, st);
    PairFront('\\', d, rest);
    FeedOne('\\', [d] + rest, st);
    FeedOne(d, rest, Next(st, '\\'));
  }

  lemma NextTwo(d: char, st: State)
    requires !st.done && !st.escape && st.kind != Blank
    ensures !Next(st, '\\').done
    ensures Next(Next(st, '\\'), d)
         == st.(data := st.data + (if st.kind == Lst then ['\\'] else [])
                        + [if d == 'n' then '\n' else if d == 'r' then '\r' else d],
                used := st.used + 2)
  {
    assert Next(st, '\\') == st.(escape := true, data := st.data + [], used := st.used + 1);
    assert st.data + [] == st.data;
  }

  function WriteOne(c: char, deep: bool): string {
    if Escaped(c) then ['\\', Behind(c, deep)] else [c]
  }

  // In a string or an exception a character arrives as itself, in a list as an element has it.
  lemma OneArrives(c: char, deep: bool, rest: string, st: State)
    requires !st.done && !st.escape && st.kind != Blank
    ensures Feed(WriteOne(c, deep) + rest, st)
         == Feed(rest, st.(data := st.data + (if st.kind == Lst then WriteOne(c, true) else [c]),
                           used := st.used + |WriteOne(c, true)|))
  {
    hide Feed;
    if Escaped(c) {
      EscapedArrives(Behind(c, deep), rest, st);
      Appended(st.data, c);
    } else {
      FeedOrdinary(c, rest, st);
    }
  }

  lemma Appended(data: string, c: char)
    ensures data + ['\\'] + [c] == data + ['\\', c] && data + [] + [c] == data + [c]
  {
  }

  lemma {:induction false} TextArrives(s: string, deep: bool, rest: string, st: State)
    requires !st.done && !st.escape && st.kind != Blank
    ensures Feed(Write(s, deep) + rest, st)
         == Feed(rest, st.(data := st.data + (if st.kind == Lst then Write(s, true) else s),
                           used := st.used + |Write(s, true)|))
    decreases |s|
  {
    hide *;
    WriteFront(s, deep);
    WriteFront(s, true);
    if s == [] {
      Nothing(rest);
      Nothing(st.data);
    } else {
      Assoc(WriteOne(s[0], deep), Write(s[1..], deep), rest);
      OneArrives(s[0], deep, Write(s[1..], deep) + rest, st);
      var first := if st.kind == Lst then WriteOne(s[0], true) else [s[0]];
      var st' := st.(data := st.data + first, used := st.used + |WriteOne(s[0], true)|);
      TextArrives(s[1..], deep, rest, st');
      Assoc(st.data, first, if st.kind == Lst then Write(s[1..], true) else s[1..]);
      assert [s[0]] + s[1..] == s;
    }
  }

  lemma WriteFront(s: string, deep: bool)
    ensures Write(s, deep) == if s == [] then [] else WriteOne(s[0], deep) + Write(s[1..], deep)
  {
  }

  lemma Nothing(s: string)
    ensures [] + s == s == s + []
  {
  }

  lemma Assoc(a: string, b: string, c: string)
    ensures a + b + c == a + (b + c)
  {
  }

  // ---- items -----------------------------------------------------------------------------

  lemma Brackets(open: char, body: string, close: char, rest: string)
    ensures [open] + body + [close] + rest == [open] + (body + ([close] + rest))
  {
  }

  // A list takes an element as it is written for one level further in.
  lemma {:induction false} ElementArrives(item: Item, deep: bool, rest: string, st: State)
    requires Whole(item) && !st.done && !st.escape && st.kind == Lst && st.count >= 1
    ensures Feed(WriteItem(item, deep) + rest, st)
         == Feed(rest, st.(data := st.data + WriteItem(item, true), used := st.used + |WriteItem(item, true)|))
    decreases item, 0
  {
    hide Feed, Write;
    match item
    case StringItem(s) =>
      QuotedArrives('(', s, ')', deep, rest, st);
    case ExceptionItem(s) =>
      QuotedArrives('[', s, ']', deep, rest, st);
    case ListItem(items) =>
      Brackets('{', WriteItems(items, deep), '}', rest);
      FeedOne('{', WriteItems(items, deep) + (['}'] + rest), st);
      var st1 := st.(data := st.data + ['{'], used := st.used + 1, count := st.count + 1);
      assert Next(st, '{') == st1;
      ElementsArrive(items, deep, ['}'] + rest, st1);
      var st2 := st1.(data := st1.data + WriteItems(items, true), used := st1.used + |WriteItems(items, true)|);
      FeedOne('}', rest, st2);
      Brackets('{', WriteItems(items, true), '}', []);
      assert st2.data + ['}'] == st.data + WriteItem(item, true);
  }

  lemma QuotedArrives(open: char, s: string, close: char, deep: bool, rest: string, st: State)
    requires !st.done && !st.escape && st.kind == Lst
    requires (open == '(' && close == ')') || (open == '[' && close == ']')
    ensures Feed([open] + Write(s, deep) + [close] + rest, st)
         == Feed(rest, st.(data := st.data + ([open] + Write(s, true) + [close]), used := st.used + |Write(s, true)| + 2))
  {
    hide Feed, Write;
    Brackets(open, Write(s, deep), close, rest);
    FeedOrdinary(open, Write(s, deep) + ([close] + rest), st);
    var st1 := st.(data := st.data + [open], used := st.used + 1);
    TextArrives(s, deep, [close] + rest, st1);
    var st2 := st1.(data := st1.data + Write(s, true), used := st1.used + |Write(s, true)|);
    FeedOrdinary(close, rest, st2);
    assert st.data + [open] + Write(s, true) + [close] == st.data + ([open] + Write(s, true) + [close]);
  }

  lemma {:induction false} ElementsArrive(items: seq<Item>, deep: bool, rest: string, st: State)
    requires (forall k :: 0 <= k < |items| ==> Whole(items[k])) && !st.done && !st.escape && st.kind == Lst && st.count >= 1
    ensures Feed(WriteItems(items, deep) + rest, st)
         == Feed(rest, st.(data := st.data + WriteItems(items, true), used := st.used + |WriteItems(items, true)|))
    decreases items, 1
  {
    hide Feed, WriteItem, Whole;
    if items == [] {
      Nothing(rest);
      Nothing(st.data);
    } else {
      Assoc(WriteItem(items[0], deep), WriteItems(items[1..], deep), rest);
      ElementArrives(items[0], deep, WriteItems(items[1..], deep) + rest, st);
      var st' := st.(data := st.data + WriteItem(items[0], true), used := st.used + |WriteItem(items[0], true)|);
      ElementsArrive(items[1..], deep, rest, st');
      Assoc(st.data, WriteItem(items[0], true), WriteItems(items[1..], true));
    }
  }

  // A string or an exception at the front of a value.
  lemma QuotedParses(open: char, s: string, close: char, deep: bool, rest: string)
    requires (open == '(' && close == ')') || (open == '[' && close == ']')
    ensures Feed([open] + Write(s, deep) + [close] + rest, INIT)
         == State(false, if open == '(' then Txt else Exc, [open] + s + [close], 0, |Write(s, true)| + 2, true)
  {
    hide Feed, Write;
    var kind := if open == '(' then Txt else Exc;
    Brackets(open, Write(s, deep), close, rest);
    FeedOne(open, Write(s, deep) + ([close] + rest), INIT);
    var st1 := State(false, kind, [open], 1, 1, false);
    assert Next(INIT, open) == st1 by { assert [] + [open] == [open]; }
    TextArrives(s, deep, [close] + rest, st1);
    var st2 := st1.(data := [open] + s, used := 1 + |Write(s, true)|);
    FeedOne(close, rest, st2);
    FeedClosed(rest, Next(st2, close));
  }

  lemma ListParses(items: seq<Item>, deep: bool, rest: string)
    requires forall k :: 0 <= k < |items| ==> Whole(items[k])
    ensures Feed("{" + WriteItems(items, deep) + "}" + rest, INIT)
         == State(false, Lst, ['{'] + WriteItems(items, true) + ['}'], 0, |WriteItems(items, true)| + 2, true)
  {
    hide Feed, WriteItems, Whole;
    Brackets('{', WriteItems(items, deep), '}', rest);
    FeedOne('{', WriteItems(items, deep) + (['}'] + rest), INIT);
    var st1 := State(false, Lst, ['{'], 1, 1, false);
    assert Next(INIT, '{') == st1 by { assert [] + ['{'] == ['{']; }
    ElementsArrive(items, deep, ['}'] + rest, st1);
    var st2 := st1.(data := ['{'] + WriteItems(items, true), used := 1 + |WriteItems(items, true)|);
    FeedOne('}', rest, st2);
    FeedClosed(rest, Next(st2, '}'));
  }

  lemma {:induction false} WriteSize(s: string)
    ensures |Write(s, false)| == |Write(s, true)|
  {
    if s != [] {
      WriteSize(s[1..]);
    }
  }

  lemma {:induction false} ItemSize(item: Item)
    ensures |WriteItem(item, false)| == |WriteItem(item, true)|
    decreases item, 0
  {
    match item
    case StringItem(s) => WriteSize(s);
    case ExceptionItem(s) => WriteSize(s);
    case ListItem(items) => ItemsSize(items);
    case EmptyItem =>
  }

  lemma {:induction false} ItemsSize(items: seq<Item>)
    ensures |WriteItems(items, false)| == |WriteItems(items, true)|
    decreases items, 1
  {
    if items != [] {
      ItemSize(items[0]);
      ItemsSize(items[1..]);
    }
  }

  // Every item that the other side writes, strings with any characters and exceptions at any
  // depth, parses to itself, and exactly what was written for it is used up.
  lemma {:induction false} PeerItem(item: Item, deep: bool, rest: string)
    requires Whole(item)
    ensures Parse(WriteItem(item, deep) + rest) == (item, |WriteItem(item, deep)|)
    decreases item, 0
  {
    hide Feed, Write, WriteItems, ParseList;
    ItemSize(item);
    match item
    case StringItem(s) =>
      QuotedParses('(', s, ')', deep, rest);
      assert Inner(['('] + s + [')']) == s;
    case ExceptionItem(s) =>
      QuotedParses('[', s, ']', deep, rest);
      assert Inner(['['] + s + [']']) == s;
    case ListItem(items) =>
      ListParses(items, deep, rest);
      assert Inner(['{'] + WriteItems(items, true) + ['}']) == WriteItems(items, true);
      PeerItems(items);
  }

  lemma {:induction false} PeerItems(items: seq<Item>)
    requires forall k :: 0 <= k < |items| ==> Whole(items[k])
    ensures ParseList(WriteItems(items, true)) == items
    decreases items, 1
  {
    hide Parse, WriteItem, Whole;
    if items != [] {
      var w, more := WriteItem(items[0], true), WriteItems(items[1..], true);
      PeerItem(items[0], true, more);
      PeerItems(items[1..]);
      Written(items[0]);
      assert (w + more)[|w|..] == more;
    }
  }

  lemma Written(item: Item)
    requires Whole(item)
    ensures WriteItem(item, true) != [] && item != EmptyItem
  {
  }

  // ---- flat values -----------------------------------------------------------------------

  // Flattening leaves a string alone exactly when it has no line break in it and no backslash
  // before a bracket or another backslash.
  lemma FlatKeeps(s: string)
    ensures Unescape(s) == s <==> Clean(s)
  {
    hide ReplaceAll, Special;
    BreaksGone(s);
    UnguardsSettle(s);
    if !(FreeOf(s, CR) && FreeOf(s, LF)) {
      var t := ReplaceAll(s, BREAKS);
      ReplaceAllKeepsOut(t, UNESCAPES, CR);
      ReplaceAllKeepsOut(t, UNESCAPES, LF);
    }
  }

  predicate AllKept(item: Item)
    decreases item
  {
    match item
    case StringItem(s) => Clean(s)
    case ListItem(items) => forall k :: 0 <= k < |items| ==> AllKept(items[k])
    case _ => true
  }

  // The item as a value, its strings and exceptions as they are.
  function Straight(item: Item): Flat
    decreases item
  {
    match item
    case StringItem(s) => FlatString(s)
    case ExceptionItem(text) => FlatException(text)
    case ListItem(items) => FlatList(AllStraight(items))
    case EmptyItem => FlatException("Invalid itype string encountered.")
  }

  function AllStraight(items: seq<Item>): seq<Flat>
    decreases items
  {
    if items == [] then [] else [Straight(items[0])] + AllStraight(items[1..])
  }

  // So a value from the other side comes out as it went in exactly when all its strings are
  // such; exceptions always do.
  lemma PeerRoundTrip(item: Item)
    requires Whole(item)
    ensures ToPhp(WriteItem(item, false)) == Straight(item) <==> AllKept(item)
  {
    PeerItem(item, false, []);
    Nothing(WriteItem(item, false));
    FlatIsStraight(item);
  }

  lemma {:induction false} FlatIsStraight(item: Item)
    ensures Flatten(item) == Straight(item) <==> AllKept(item)
    decreases item, 0
  {
    hide Unescape, Clean;
    match item
    case StringItem(s) => FlatKeeps(s);
    case ListItem(items) => FlatsAreStraight(items);
    case _ =>
  }

  lemma {:induction false} FlatsAreStraight(items: seq<Item>)
    ensures FlattenAll(items) == AllStraight(items) <==> forall k :: 0 <= k < |items| ==> AllKept(items[k])
    decreases items, 1
  {
    hide Flatten, Straight, AllKept;
    if items != [] {
      FlatIsStraight(items[0]);
      FlatsAreStraight(items[1..]);
      var f, g := FlattenAll(items), AllStraight(items);
      assert f[0] == Flatten(items[0]) && f[1..] == FlattenAll(items[1..]);
      assert g[0] == Straight(items[0]) && g[1..] == AllStraight(items[1..]);
      assert forall k :: 1 <= k < |items| ==> items[k] == items[1..][k - 1];
      if f[0] == g[0] && f[1..] == g[1..] {
        assert f == [f[0]] + f[1..] && g == [g[0]] + g[1..];
      }
      if forall k :: 0 <= k < |items| ==> AllKept(items[k]) {
        assert forall k :: 0 <= k < |items[1..]| ==> AllKept(items[1..][k]);
      }
    }
  }

  // A line break comes out as a backslash and a letter.
  lemma BreaksComeOut()
    ensures Unescape("\n") == ['\\', 'n'] && Unescape("\r") == ['\\', 'r']
  {
    BreakComesOut(LF, 'n');
    BreakComesOut(CR, 'r');
  }

  lemma BreakComesOut(c: char, d: char)
    requires (c == LF && d == 'n') || (c == CR && d == 'r')
    ensures Unescape([c]) == ['\\', d]
  {
    hide Replace;
    var out := ['\\', d];
    assert "\\r" == ['\\', 'r'] && "\\n" == ['\\', 'n'] && "\r" == [CR] && "\n" == [LF];
    ReplaceOne(c, CR, ['\\', 'r']);
    ReplaceOne(c, LF, ['\\', 'n']);
    ReplaceTwo('\\', 'r', LF, ['\\', 'n']);
    var s1 := Replace([c], [CR], ['\\', 'r']);
    assert ReplaceAll([c], BREAKS) == ReplaceAll(s1, BREAKS[1..]);
    assert ReplaceAll(s1, BREAKS[1..]) == ReplaceAll(Replace(s1, [LF], ['\\', 'n']), BREAKS[1..][1..]);
    assert ['\\'] + ['r'] == ['\\', 'r'];
    UnguardsSettle(out);
  }
}
