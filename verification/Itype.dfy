// php/itype.php: printing nested lists of strings and parsing them back, one level at a
// time.
module Itype {

  const CR: char := '\r'
  const LF: char := '\n'
  const BACKSLASH: char := '\\'

  datatype Value = Str(s: string) | List(items: seq<Value>)

  // What itype_parse returns beside the offset.
  datatype Item = StringItem(s: string) | ExceptionItem(text: string) | ListItem(items: seq<Item>) | EmptyItem

  // What itype_flat returns: a PHP string, array or exception object.
  datatype Flat = FlatString(s: string) | FlatList(items: seq<Flat>) | FlatException(text: string)

  // ---- str_replace ----------------------------------------------------------------------

  // Every occurrence of search, leftmost first, without overlap.
  function Replace(s: string, search: string, put: string): string
    requires search != []
    decreases |s|
  {
    if s == [] then []
    else if search <= s then put + Replace(s[|search|..], search, put)
    else [s[0]] + Replace(s[1..], search, put)
  }

  datatype Rule = Rule(search: string, put: string)

  predicate Proper(rules: seq<Rule>) {
    forall i :: 0 <= i < |rules| ==> rules[i].search != []
  }

  // With arrays: one rule after the other, each on the result of the one before.
  function ReplaceAll(s: string, rules: seq<Rule>): string
    requires Proper(rules)
    decreases |rules|
  {
    if rules == [] then s else ReplaceAll(Replace(s, rules[0].search, rules[0].put), rules[1..])
  }

  predicate Occurs(p: string, s: string)
    decreases |s|
  {
    s != [] && (p <= s || Occurs(p, s[1..]))
  }

  // A rule that shortens leaves a string alone exactly when it finds nothing in it.
  lemma {:induction false} ReplaceShortens(s: string, search: string, put: string)
    requires |put| < |search|
    ensures |Replace(s, search, put)| <= |s|
    ensures Occurs(search, s) ==> |Replace(s, search, put)| < |s|
    ensures !Occurs(search, s) ==> Replace(s, search, put) == s
    decreases |s|
  {
    if s != [] {
      if search <= s {
        ReplaceShortens(s[|search|..], search, put);
      } else {
        ReplaceShortens(s[1..], search, put);
      }
    }
  }

  // So do several, one after the other: no later rule can undo an earlier loss.
  lemma {:induction false} ReplaceAllShortens(s: string, rules: seq<Rule>)
    requires forall i :: 0 <= i < |rules| ==> |rules[i].put| < |rules[i].search|
    ensures Proper(rules) && |ReplaceAll(s, rules)| <= |s|
    ensures (exists i :: 0 <= i < |rules| && Occurs(rules[i].search, s)) ==> |ReplaceAll(s, rules)| < |s|
    ensures (forall i :: 0 <= i < |rules| ==> !Occurs(rules[i].search, s)) ==> ReplaceAll(s, rules) == s
    decreases |rules|
  {
    if rules != [] {
      ReplaceShortens(s, rules[0].search, rules[0].put);
      ReplaceAllShortens(Replace(s, rules[0].search, rules[0].put), rules[1..]);
      if i :| 0 <= i < |rules| && Occurs(rules[i].search, s) {
        if !Occurs(rules[0].search, s) {
          assert rules[1..][i - 1] == rules[i];
        }
      }
    }
  }

  predicate FreeOf(s: string, c: char) {
    forall i :: 0 <= i < |s| ==> s[i] != c
  }

  lemma {:induction false} ReplaceKeepsOut(s: string, search: string, put: string, c: char)
    requires search != [] && FreeOf(put, c)
    requires FreeOf(s, c) || search == [c]
    ensures FreeOf(Replace(s, search, put), c)
    decreases |s|
  {
    if s != [] {
      ReplaceKeepsOut(if search <= s then s[|search|..] else s[1..], search, put, c);
    }
  }

  lemma {:induction false} ReplaceAllKeepsOut(s: string, rules: seq<Rule>, c: char)
    requires Proper(rules) && FreeOf(s, c) && forall i :: 0 <= i < |rules| ==> FreeOf(rules[i].put, c)
    ensures FreeOf(ReplaceAll(s, rules), c)
    decreases |rules|
  {
    if rules != [] {
      ReplaceKeepsOut(s, rules[0].search, rules[0].put, c);
      ReplaceAllKeepsOut(Replace(s, rules[0].search, rules[0].put), rules[1..], c);
    }
  }

  lemma {:induction false} ReplaceConcat(a: string, b: string, c: char, put: string)
    ensures Replace(a + b, [c], put) == Replace(a, [c], put) + Replace(b, [c], put)
    decreases |a|
  {
    if a == [] {
      assert a + b == b;
    } else {
      assert (a + b)[1..] == a[1..] + b;
      ReplaceConcat(a[1..], b, c, put);
      assert [c] <= a + b <==> [c] <= a;
    }
  }

  predicate Characters(rules: seq<Rule>) {
    forall i :: 0 <= i < |rules| ==> |rules[i].search| == 1
  }

  lemma {:induction false} ReplaceAllConcat(a: string, b: string, rules: seq<Rule>)
    requires Characters(rules)
    ensures Proper(rules)
    ensures ReplaceAll(a + b, rules) == ReplaceAll(a, rules) + ReplaceAll(b, rules)
    decreases |rules|
  {
    if rules != [] {
      var c := rules[0].search[0];
      assert rules[0].search == [c];
      ReplaceConcat(a, b, c, rules[0].put);
      ReplaceAllConcat(Replace(a, [c], rules[0].put), Replace(b, [c], rules[0].put), rules[1..]);
    }
  }

  // ---- itype_fromphp ----------------------------------------------------------------------

  const GUARDED: string := "\\{}[]()"

  // A backslash before each of these characters.
  function Guards(cs: string): seq<Rule> {
    seq(|cs|, i requires 0 <= i < |cs| => Rule([cs[i]], [BACKSLASH, cs[i]]))
  }

  const ESCAPES: seq<Rule> := [Rule("\r", "\\\r"), Rule("\n", "\\n")] + Guards(GUARDED)

  function Escape(s: string): string {
    ReplaceAll(s, ESCAPES)
  }

  function FromPhp(v: Value): string
    decreases v
  {
    match v
    case Str(s) => "(" + Escape(s) + ")"
    case List(items) => "{" + FromPhps(items) + "}"
  }

  function FromPhps(vs: seq<Value>): string
    decreases vs
  {
    if vs == [] then [] else FromPhp(vs[0]) + FromPhps(vs[1..])
  }

  // ---- itype_parse ------------------------------------------------------------------------

  datatype Kind = Blank | Exc | Lst | Txt

  // The variables of the loop; done once it has returned from inside.
  datatype State = State(escape: bool, kind: Kind, data: string, count: int, used: nat, done: bool)

  const INIT: State := State(false, Blank, [], 0, 0, false)

  function Opens(c: char): Kind {
    if c == '[' then Exc else if c == '{' then Lst else if c == '(' then Txt else Blank
  }

  function Closes(c: char): Kind {
    if c == ']' then Exc else if c == '}' then Lst else if c == ')' then Txt else Blank
  }

  // One turn of the loop.
  function Next(st: State, c: char): State {
    if st.escape then
      var c' := if c == 'n' then LF else if c == 'r' then CR else c;
      st.(escape := false, used := st.used + 1,
          data := st.data + (if st.kind == Lst then [BACKSLASH] else [])
                  + (if st.kind != Blank then [c'] else []))
    else
      var escape := c == BACKSLASH;
      var kind := if st.kind == Blank then Opens(c) else st.kind;
      var control := kind != Blank && Closes(c) == kind;
      var count := if kind != Blank && Opens(c) == kind then st.count + 1
                   else if control then st.count - 1 else st.count;
      State(escape, kind, st.data + (if kind != Blank && !escape then [c] else []), count,
            st.used + 1, control && count == 0)
  }

  function Feed(s: string, st: State): (r: State)
    decreases |s|
  {
    if s == [] || st.done then st else Feed(s[1..], Next(st, s[0]))
  }

  // substr($data, 1, -1)
  function Inner(data: string): string {
    if |data| < 2 then [] else data[1..|data| - 1]
  }

  lemma {:induction false} FeedSize(s: string, st: State)
    ensures Feed(s, st).used <= st.used + |s|
    ensures |Feed(s, st).data| + (if Feed(s, st).escape then 1 else 0) - Feed(s, st).used
         <= |st.data| + (if st.escape then 1 else 0) - st.used
    ensures s != [] && !st.done ==> Feed(s, st).used > st.used
    decreases |s|
  {
    if s != [] && !st.done {
      FeedSize(s[1..], Next(st, s[0]));
      if s[1..] == [] || Next(st, s[0]).done {
        assert Feed(s[1..], Next(st, s[0])) == Next(st, s[0]);
      }
    }
  }

  // The item at the front of value and how many characters it takes.
  function Parse(value: string): (r: (Item, nat))
    ensures r.1 <= |value| && (value != [] ==> r.1 > 0)
    decreases |value|, 0
  {
    var st := Feed(value, INIT);
    FeedSize(value, INIT);
    if !st.done then (EmptyItem, |value|)
    else
      match st.kind
      case Txt => (StringItem(Inner(st.data)), st.used)
      case Exc => (ExceptionItem(Inner(st.data)), st.used)
      case Lst => (ListItem(ParseList(Inner(st.data))), st.used)
      case Blank => (EmptyItem, |value|)
  }

  // The inner loop: items until the text runs out or one is empty.
  function ParseList(s: string): seq<Item>
    decreases |s|, 1
  {
    if s == [] then []
    else
      var (item, n) := Parse(s);
      if item == EmptyItem then [] else [item] + ParseList(s[n..])
  }

  // ---- itype_flat -------------------------------------------------------------------------

  const UNGUARDED: string := "{}[]()\\"

  // The backslash before each of these characters taken away.
  function Unguards(cs: string): seq<Rule> {
    seq(|cs|, i requires 0 <= i < |cs| => Rule([BACKSLASH, cs[i]], [cs[i]]))
  }

  const UNESCAPES: seq<Rule> := Unguards(UNGUARDED)

  const BREAKS: seq<Rule> := [Rule("\r", "\\r"), Rule("\n", "\\n")]

  function Unescape(s: string): string {
    ReplaceAll(ReplaceAll(s, BREAKS), UNESCAPES)
  }

  function Flatten(item: Item): Flat
    decreases item
  {
    match item
    case ListItem(items) => FlatList(FlattenAll(items))
    case EmptyItem => FlatException("Invalid itype string encountered.")
    case ExceptionItem(text) => FlatException(text)
    case StringItem(s) => FlatString(Unescape(s))
  }

  function FlattenAll(items: seq<Item>): seq<Flat>
    decreases items
  {
    if items == [] then [] else [Flatten(items[0])] + FlattenAll(items[1..])
  }

  function ToPhp(s: string): Flat {
    Flatten(Parse(s).0)
  }

  // ---- Escaping, one character at a time -------------------------------------------------

  predicate Special(c: char) {
    Opens(c) != Blank || Closes(c) != Blank || c == BACKSLASH
  }

  // Breaks are escaped by the first two rules and their backslash again by the third.
  function EscapeOf(c: char): string {
    if c == CR then "\\\\\r" else if c == LF then "\\\\n" else if Special(c) then [BACKSLASH, c] else [c]
  }

  lemma ReplaceOne(x: char, c: char, put: string)
    ensures Replace([x], [c], put) == if x == c then put else [x]
  {
    assert Replace([], [c], put) == [];
    assert [x][1..] == [];
    assert [x][0] == x && [c][0] == c;
    if x == c {
      assert [c] <= [x];
    }
  }

  lemma ReplaceTwo(x: char, y: char, c: char, put: string)
    ensures Replace([x, y], [c], put)
         == (if x == c then put else [x]) + (if y == c then put else [y])
  {
    ReplaceOne(x, c, put);
    ReplaceOne(y, c, put);
    ReplaceConcat([x], [y], c, put);
    assert [x] + [y] == [x, y];
  }

  lemma {:induction false} Settled(s: string, rules: seq<Rule>)
    requires Proper(rules)
    requires forall i :: 0 <= i < |rules| ==> !Occurs(rules[i].search, s)
    ensures ReplaceAll(s, rules) == s
    decreases |rules|
  {
    if rules != [] {
      Unmoved(s, rules[0].search, rules[0].put);
      Settled(s, rules[1..]);
    }
  }

  lemma {:induction false} Unmoved(s: string, search: string, put: string)
    requires search != [] && !Occurs(search, s)
    ensures Replace(s, search, put) == s
    decreases |s|
  {
    if s != [] {
      Unmoved(s[1..], search, put);
    }
  }

  lemma {:induction false} OccursOne(c: char, s: string)
    ensures Occurs([c], s) <==> !FreeOf(s, c)
    decreases |s|
  {
    if s != [] {
      OccursOne(c, s[1..]);
      assert [c] <= s <==> s[0] == c;
    }
  }

  // A character is guarded once, when no later rule looks for the backslash put before it.
  lemma {:induction false} GuardOne(x: char, cs: string)
    requires forall i :: 1 <= i < |cs| ==> cs[i] != BACKSLASH
    requires forall i, j :: 0 <= i < j < |cs| ==> cs[i] != cs[j]
    ensures Characters(Guards(cs))
    ensures ReplaceAll([x], Guards(cs)) == if FreeOf(cs, x) then [x] else [BACKSLASH, x]
    decreases |cs|
  {
    if cs != [] {
      assert Guards(cs)[1..] == Guards(cs[1..]);
      ReplaceOne(x, cs[0], [BACKSLASH, cs[0]]);
      if x == cs[0] {
        forall i | 0 <= i < |cs[1..]|
          ensures !Occurs(Guards(cs[1..])[i].search, [BACKSLASH, x])
        {
          OccursOne(cs[1..][i], [BACKSLASH, x]);
        }
        Settled([BACKSLASH, x], Guards(cs[1..]));
      } else {
        GuardOne(x, cs[1..]);
      }
    }
  }

  lemma SpecialIsGuarded(x: char)
    ensures Special(x) <==> !FreeOf(GUARDED, x)
  {
    var cs := GUARDED;
    assert cs == ['\\', '{', '}', '[', ']', '(', ')'];
    assert Special(x) <==> x == cs[0] || x == cs[1] || x == cs[2] || x == cs[3] || x == cs[4] || x == cs[5] || x == cs[6];
  }

  // The two characters a break has become by the third rule.
  lemma BrokenOne(c: char)
    requires !Special(c)
    ensures Characters(Guards(GUARDED)) && ReplaceAll([BACKSLASH, c], Guards(GUARDED)) == [BACKSLASH, BACKSLASH, c]
  {
    GuardOne(BACKSLASH, GUARDED);
    GuardOne(c, GUARDED);
    SpecialIsGuarded(c);
    SpecialIsGuarded(BACKSLASH);
    ReplaceAllConcat([BACKSLASH], [c], Guards(GUARDED));
    assert [BACKSLASH] + [c] == [BACKSLASH, c];
  }

  lemma EscapeBegins(s: string)
    ensures Characters(ESCAPES) && Characters(Guards(GUARDED))
    ensures Escape(s) == ReplaceAll(Replace(Replace(s, [CR], [BACKSLASH, CR]), [LF], [BACKSLASH, 'n']), Guards(GUARDED))
  {
    assert ESCAPES[1..] == [Rule("\n", "\\n")] + Guards(GUARDED);
    assert ESCAPES[2..] == ESCAPES[1..][1..] == Guards(GUARDED);
    assert "\\n" == [BACKSLASH, 'n'];
    assert "\\\r" == [BACKSLASH, CR];
    assert "\r" == [CR] && "\n" == [LF];
    var s1 := Replace(s, [CR], [BACKSLASH, CR]);
    assert ReplaceAll(s, ESCAPES) == ReplaceAll(s1, ESCAPES[1..]);
    assert ReplaceAll(s1, ESCAPES[1..]) == ReplaceAll(Replace(s1, [LF], [BACKSLASH, 'n']), ESCAPES[1..][1..]);
  }

  lemma EscapeOne(x: char)
    ensures Characters(ESCAPES) && Escape([x]) == EscapeOf(x)
  {
    hide FreeOf, ReplaceAll, Replace, Guards;
    EscapeBegins([x]);
    assert "\\\\\r" == [BACKSLASH, BACKSLASH, CR] && "\\\\n" == [BACKSLASH, BACKSLASH, 'n'];
    ReplaceOne(x, CR, [BACKSLASH, CR]);
    if x == CR {
      ReplaceTwo(BACKSLASH, CR, LF, [BACKSLASH, 'n']);
      assert [BACKSLASH] + [CR] == [BACKSLASH, CR];
      assert !Special(CR);
      BrokenOne(CR);
    } else {
      ReplaceOne(x, LF, [BACKSLASH, 'n']);
      if x == LF {
        BrokenOne('n');
      } else {
        SpecialIsGuarded(x);
        GuardOne(x, GUARDED);
      }
    }
  }

  // What the parser keeps of an escaped string: breaks have gone for good.
  function Plain(s: string): string {
    if s == [] then []
    else (if s[0] == CR then [BACKSLASH, CR] else if s[0] == LF then [BACKSLASH, 'n'] else [s[0]]) + Plain(s[1..])
  }

  lemma FeedOne(c: char, rest: string, st: State)
    requires !st.done
    ensures Feed([c] + rest, st) == Feed(rest, Next(st, c))
  {
    assert ([c] + rest)[1..] == rest;
  }

  lemma NextEscaped(c: char, st: State)
    requires !st.escape && st.kind != Blank && c != 'n' && c != 'r'
    ensures !Next(st, BACKSLASH).done
    ensures Next(Next(st, BACKSLASH), c)
         == st.(data := st.data + (if st.kind == Lst then [BACKSLASH] else []) + [c], used := st.used + 2, done := false)
  {
    assert Next(st, BACKSLASH) == st.(escape := true, data := st.data + [], used := st.used + 1, done := false);
    assert st.data + [] == st.data;
  }

  lemma PairFront(a: char, b: char, rest: string)
    ensures [a, b] + rest == [a] + ([b] + rest)
  {
  }

  lemma FeedEscaped(c: char, rest: string, st: State)
    requires !st.done && !st.escape && st.kind != Blank && c != 'n' && c != 'r'
    ensures Feed([BACKSLASH, c] + rest, st)
         == Feed(rest, st.(data := st.data + (if st.kind == Lst then [BACKSLASH] else []) + [c], used := st.used + 2))
  {
    hide *;
    NextEscaped(c, st);
    PairFront(BACKSLASH, c, rest);
    FeedOne(BACKSLASH, [c] + rest, st);
    FeedOne(c, rest, Next(st, BACKSLASH));
  }

  lemma FeedOrdinary(c: char, rest: string, st: State)
    requires !st.done && !st.escape && st.kind != Blank && c != BACKSLASH
    requires Opens(c) != st.kind && Closes(c) != st.kind
    ensures Feed([c] + rest, st) == Feed(rest, st.(data := st.data + [c], used := st.used + 1))
  {
    hide Feed;
    FeedOne(c, rest, st);
    assert Next(st, c) == st.(data := st.data + [c], used := st.used + 1);
  }

  // In a string, an escaped character arrives as itself.
  lemma StringCharacter(c: char, rest: string, st: State)
    requires !st.done && !st.escape && st.kind == Txt
    ensures Feed(EscapeOf(c) + rest, st) == Feed(rest, st.(data := st.data + Plain([c]), used := st.used + |EscapeOf(c)|))
  {
    hide Feed, Plain;
    PlainOne(c);
    if c == CR || c == LF {
      BreakFed(c, rest, st);
    } else if Special(c) {
      FeedEscaped(c, rest, st);
      NothingBefore(st.data, [c]);
    } else {
      FeedOrdinary(c, rest, st);
    }
  }

  lemma NothingBefore(data: string, s: string)
    ensures data + [] + s == data + s
  {
  }

  lemma PlainOne(c: char)
    ensures Plain([c]) == if c == CR then [BACKSLASH, CR] else if c == LF then [BACKSLASH, 'n'] else [c]
  {
    assert Plain([]) == [] && [c][1..] == [];
  }

  lemma BreakFed(c: char, rest: string, st: State)
    requires !st.done && !st.escape && st.kind == Txt && (c == CR || c == LF)
    ensures Feed(EscapeOf(c) + rest, st) == Feed(rest, st.(data := st.data + Plain([c]), used := st.used + |EscapeOf(c)|))
  {
    hide Feed, Plain;
    var d := if c == CR then CR else 'n';
    PlainOne(c);
    TripleFront(d, rest);
    FeedEscaped(BACKSLASH, [d] + rest, st);
    NothingBefore(st.data, [BACKSLASH]);
    FeedOrdinary(d, rest, st.(data := st.data + [BACKSLASH], used := st.used + 2));
    PairBehind(st.data, d);
  }

  lemma TripleFront(d: char, rest: string)
    ensures [BACKSLASH, BACKSLASH, d] + rest == [BACKSLASH, BACKSLASH] + ([d] + rest)
  {
  }

  lemma PairBehind(data: string, d: char)
    ensures data + [BACKSLASH] + [d] == data + [BACKSLASH, d]
  {
  }

  // In a list, it stays escaped, for the parse of the element to undo.
  lemma ListCharacter(c: char, rest: string, st: State)
    requires !st.done && !st.escape && st.kind == Lst
    ensures Feed(EscapeOf(c) + rest, st) == Feed(rest, st.(data := st.data + EscapeOf(c), used := st.used + |EscapeOf(c)|))
  {
    hide Feed;
    if c == CR || c == LF {
      var d := if c == CR then CR else 'n';
      assert EscapeOf(c) == [BACKSLASH, BACKSLASH, d];
      assert EscapeOf(c) + rest == [BACKSLASH, BACKSLASH] + ([d] + rest);
      FeedEscaped(BACKSLASH, [d] + rest, st);
      var st' := st.(data := st.data + [BACKSLASH, BACKSLASH], used := st.used + 2);
      assert st.data + [BACKSLASH] + [BACKSLASH] == st'.data;
      FeedOrdinary(d, rest, st');
      assert st'.data + [d] == st.data + EscapeOf(c);
    } else if Special(c) {
      FeedEscaped(c, rest, st);
      assert st.data + [BACKSLASH] + [c] == st.data + EscapeOf(c);
    } else {
      FeedOrdinary(c, rest, st);
    }
  }

  lemma EscapeFront(s: string)
    requires s != []
    ensures Escape(s) == EscapeOf(s[0]) + Escape(s[1..])
  {
    hide ReplaceAll, EscapeOf;
    EscapeOne(s[0]);
    ReplaceAllConcat([s[0]], s[1..], ESCAPES);
    assert [s[0]] + s[1..] == s;
  }

  lemma EscapeNothing()
    ensures Escape([]) == []
  {
    EscapeBegins([]);
    SettledNothing(Guards(GUARDED));
  }

  lemma {:induction false} SettledNothing(rules: seq<Rule>)
    requires Proper(rules)
    ensures ReplaceAll([], rules) == []
    decreases |rules|
  {
    if rules != [] {
      SettledNothing(rules[1..]);
    }
  }

  lemma PlainNothing()
    ensures Plain([]) == []
  {
  }

  lemma PlainFront(s: string)
    requires s != []
    ensures Plain(s) == Plain([s[0]]) + Plain(s[1..])
  {
    assert Plain([]) == [] && [s[0]][1..] == [];
  }

  lemma {:induction false} StringBody(s: string, rest: string, st: State)
    requires !st.done && !st.escape && st.kind == Txt
    ensures Feed(Escape(s) + rest, st) == Feed(rest, st.(data := st.data + Plain(s), used := st.used + |Escape(s)|))
    decreases |s|
  {
    hide Feed, Escape, EscapeOf, Plain;
    if s == [] {
      EscapeNothing();
      assert [] + rest == rest;
      PlainNothing();
      assert st.data + Plain(s) == st.data;
    } else {
      EscapeFront(s);
      assert Escape(s) + rest == EscapeOf(s[0]) + (Escape(s[1..]) + rest);
      StringCharacter(s[0], Escape(s[1..]) + rest, st);
      var st' := st.(data := st.data + Plain([s[0]]), used := st.used + |EscapeOf(s[0])|);
      StringBody(s[1..], rest, st');
      PlainFront(s);
      assert st'.data + Plain(s[1..]) == st.data + Plain(s);
    }
  }

  lemma {:induction false} ListString(s: string, rest: string, st: State)
    requires !st.done && !st.escape && st.kind == Lst
    ensures Feed(Escape(s) + rest, st) == Feed(rest, st.(data := st.data + Escape(s), used := st.used + |Escape(s)|))
    decreases |s|
  {
    hide Feed, Escape, EscapeOf;
    if s == [] {
      EscapeNothing();
      assert [] + rest == rest && st.data + Escape(s) == st.data;
    } else {
      EscapeFront(s);
      assert Escape(s) + rest == EscapeOf(s[0]) + (Escape(s[1..]) + rest);
      ListCharacter(s[0], Escape(s[1..]) + rest, st);
      var st' := st.(data := st.data + EscapeOf(s[0]), used := st.used + |EscapeOf(s[0])|);
      ListString(s[1..], rest, st');
      assert st'.data + Escape(s[1..]) == st.data + Escape(s);
    }
  }

  // A list takes what is printed for an element as it stands.
  lemma {:induction false} ListElement(v: Value, rest: string, st: State)
    requires !st.done && !st.escape && st.kind == Lst && st.count >= 1
    ensures Feed(FromPhp(v) + rest, st) == Feed(rest, st.(data := st.data + FromPhp(v), used := st.used + |FromPhp(v)|))
    decreases v, 0
  {
    hide Feed, Escape;
    match v
    case Str(s) =>
      assert FromPhp(v) + rest == ['('] + (Escape(s) + ([')'] + rest));
      FeedOrdinary('(', Escape(s) + ([')'] + rest), st);
      var st1 := st.(data := st.data + ['('], used := st.used + 1);
      ListString(s, [')'] + rest, st1);
      var st2 := st1.(data := st1.data + Escape(s), used := st1.used + |Escape(s)|);
      FeedOrdinary(')', rest, st2);
      assert st2.data + [')'] == st.data + FromPhp(v);
    case List(items) =>
      assert FromPhp(v) + rest == ['{'] + (FromPhps(items) + (['}'] + rest));
      FeedOne('{', FromPhps(items) + (['}'] + rest), st);
      var st1 := st.(data := st.data + ['{'], used := st.used + 1, count := st.count + 1);
      assert Next(st, '{') == st1;
      ListElements(items, ['}'] + rest, st1);
      var st2 := st1.(data := st1.data + FromPhps(items), used := st1.used + |FromPhps(items)|);
      FeedOne('}', rest, st2);
      assert st2.data + ['}'] == st.data + FromPhp(v);
  }

  lemma {:induction false} ListElements(vs: seq<Value>, rest: string, st: State)
    requires !st.done && !st.escape && st.kind == Lst && st.count >= 1
    ensures Feed(FromPhps(vs) + rest, st) == Feed(rest, st.(data := st.data + FromPhps(vs), used := st.used + |FromPhps(vs)|))
    decreases vs, 1
  {
    hide Feed, FromPhp;
    if vs == [] {
      assert [] + rest == rest && st.data + [] == st.data;
    } else {
      assert FromPhps(vs) + rest == FromPhp(vs[0]) + (FromPhps(vs[1..]) + rest);
      ListElement(vs[0], FromPhps(vs[1..]) + rest, st);
      var st' := st.(data := st.data + FromPhp(vs[0]), used := st.used + |FromPhp(vs[0])|);
      ListElements(vs[1..], rest, st');
      assert st'.data + FromPhps(vs[1..]) == st.data + FromPhps(vs);
    }
  }

  // ---- What comes back -------------------------------------------------------------------

  function ItemOf(v: Value): Item
    decreases v
  {
    match v
    case Str(s) => StringItem(Plain(s))
    case List(items) => ListItem(ItemsOf(items))
  }

  function ItemsOf(vs: seq<Value>): seq<Item>
    decreases vs
  {
    if vs == [] then [] else [ItemOf(vs[0])] + ItemsOf(vs[1..])
  }

  lemma FeedClosed(rest: string, st: State)
    requires st.done
    ensures Feed(rest, st) == st
  {
  }

  lemma StringFed(s: string, rest: string)
    ensures Feed("(" + Escape(s) + ")" + rest, INIT)
         == State(false, Txt, ['('] + Plain(s) + [')'], 0, |Escape(s)| + 2, true)
  {
    hide Feed, Escape, Plain;
    assert "(" + Escape(s) + ")" + rest == ['('] + (Escape(s) + ([')'] + rest));
    FeedOne('(', Escape(s) + ([')'] + rest), INIT);
    var st1 := State(false, Txt, ['('], 1, 1, false);
    assert Next(INIT, '(') == st1 by { assert [] + ['('] == ['(']; }
    StringBody(s, [')'] + rest, st1);
    var st2 := st1.(data := ['('] + Plain(s), used := 1 + |Escape(s)|);
    FeedOne(')', rest, st2);
    FeedClosed(rest, Next(st2, ')'));
  }

  lemma ListFed(vs: seq<Value>, rest: string)
    ensures Feed("{" + FromPhps(vs) + "}" + rest, INIT)
         == State(false, Lst, ['{'] + FromPhps(vs) + ['}'], 0, |FromPhps(vs)| + 2, true)
  {
    hide Feed, FromPhps;
    assert "{" + FromPhps(vs) + "}" + rest == ['{'] + (FromPhps(vs) + (['}'] + rest));
    FeedOne('{', FromPhps(vs) + (['}'] + rest), INIT);
    var st1 := State(false, Lst, ['{'], 1, 1, false);
    assert Next(INIT, '{') == st1 by { assert [] + ['{'] == ['{']; }
    ListElements(vs, ['}'] + rest, st1);
    var st2 := st1.(data := ['{'] + FromPhps(vs), used := 1 + |FromPhps(vs)|);
    FeedOne('}', rest, st2);
    FeedClosed(rest, Next(st2, '}'));
  }

  // Parsing consumes exactly the item printed, whatever follows it, and finds its shape.
  lemma {:induction false} ParsePrinted(v: Value, rest: string)
    ensures Parse(FromPhp(v) + rest) == (ItemOf(v), |FromPhp(v)|)
    decreases v, 0
  {
    hide Feed, Escape, Plain, ParseList, FromPhps;
    match v
    case Str(s) =>
      StringFed(s, rest);
      assert Inner(['('] + Plain(s) + [')']) == Plain(s);
    case List(items) =>
      ListFed(items, rest);
      assert Inner(['{'] + FromPhps(items) + ['}']) == FromPhps(items);
      ParsePrintedList(items);
  }

  lemma {:induction false} ParsePrintedList(vs: seq<Value>)
    ensures ParseList(FromPhps(vs)) == ItemsOf(vs)
    decreases vs, 1
  {
    hide Parse, FromPhp;
    if vs != [] {
      ParsePrinted(vs[0], FromPhps(vs[1..]));
      ParsePrintedList(vs[1..]);
      Printed(vs[0]);
      assert (FromPhp(vs[0]) + FromPhps(vs[1..]))[|FromPhp(vs[0])|..] == FromPhps(vs[1..]);
    }
  }

  lemma Printed(v: Value)
    ensures FromPhp(v) != [] && ItemOf(v) != EmptyItem
  {
  }

  function Embed(v: Value): Flat
    decreases v
  {
    match v
    case Str(s) => FlatString(s)
    case List(items) => FlatList(EmbedAll(items))
  }

  function EmbedAll(vs: seq<Value>): seq<Flat>
    decreases vs
  {
    if vs == [] then [] else [Embed(vs[0])] + EmbedAll(vs[1..])
  }

  predicate Clean(s: string) {
    FreeOf(s, CR) && FreeOf(s, LF) && NothingGuarded(s)
  }

  predicate NothingGuarded(s: string) {
    forall i :: 0 <= i < |s| - 1 && s[i] == BACKSLASH ==> !Special(s[i + 1])
  }

  predicate AllClean(v: Value)
    decreases v
  {
    match v
    case Str(s) => Clean(s)
    case List(items) => forall i :: 0 <= i < |items| ==> AllClean(items[i])
  }

  lemma {:induction false} OccursPair(a: char, b: char, s: string)
    ensures Occurs([a, b], s) <==> exists i :: 0 <= i < |s| - 1 && s[i] == a && s[i + 1] == b
    decreases |s|
  {
    if s != [] {
      OccursPair(a, b, s[1..]);
      assert [a, b] <= s <==> |s| > 1 && s[0] == a && s[1] == b;
      if i :| 0 <= i < |s| - 1 && s[i] == a && s[i + 1] == b {
        if i > 0 {
          assert s[1..][i - 1] == a && s[1..][i] == b;
        }
      }
      if i :| 0 <= i < |s[1..]| - 1 && s[1..][i] == a && s[1..][i + 1] == b {
        assert s[i + 1] == a && s[i + 2] == b;
      }
    }
  }

  lemma SpecialIsUnguarded(c: char)
    ensures Special(c) <==> !FreeOf(UNGUARDED, c)
  {
    var cs := UNGUARDED;
    assert cs == ['{', '}', '[', ']', '(', ')', '\\'];
    assert Special(c) <==> c == cs[0] || c == cs[1] || c == cs[2] || c == cs[3] || c == cs[4] || c == cs[5] || c == cs[6];
  }

  // Nothing to take away: no backslash before a special character.
  lemma UnguardsSettle(s: string)
    ensures Proper(UNESCAPES)
    ensures ReplaceAll(s, UNESCAPES) == s <==> NothingGuarded(s)
  {
    hide ReplaceAll, Occurs, Special;
    ReplaceAllShortens(s, UNESCAPES);
    forall j | 0 <= j < |UNGUARDED|
      ensures UNESCAPES[j].search == [BACKSLASH, UNGUARDED[j]]
      ensures Occurs(UNESCAPES[j].search, s) ==> !NothingGuarded(s)
    {
      OccursPair(BACKSLASH, UNGUARDED[j], s);
      if i :| 0 <= i < |s| - 1 && s[i] == BACKSLASH && s[i + 1] == UNGUARDED[j] {
        SpecialIsUnguarded(s[i + 1]);
      }
    }
    if i :| 0 <= i < |s| - 1 && s[i] == BACKSLASH && Special(s[i + 1]) {
      SpecialIsUnguarded(s[i + 1]);
      var j :| 0 <= j < |UNGUARDED| && UNGUARDED[j] == s[i + 1];
      OccursPair(BACKSLASH, UNGUARDED[j], s);
      assert Occurs(UNESCAPES[j].search, s);
    }
  }

  lemma {:induction false} PlainWithout(s: string)
    requires FreeOf(s, CR) && FreeOf(s, LF)
    ensures Plain(s) == s
    decreases |s|
  {
    if s != [] {
      PlainWithout(s[1..]);
    }
  }

  // FreeOf breaks the first two rules find nothing; after them there are none left.
  lemma BreaksGone(s: string)
    ensures Proper(BREAKS) && FreeOf(ReplaceAll(s, BREAKS), CR) && FreeOf(ReplaceAll(s, BREAKS), LF)
    ensures FreeOf(s, CR) && FreeOf(s, LF) ==> ReplaceAll(s, BREAKS) == s
  {
    var s1 := Replace(s, [CR], "\\r");
    var s2 := Replace(s1, [LF], "\\n");
    assert "\r" == [CR] && "\n" == [LF];
    assert ReplaceAll(s, BREAKS) == ReplaceAll(s1, BREAKS[1..]);
    assert ReplaceAll(s1, BREAKS[1..]) == ReplaceAll(s2, BREAKS[1..][1..]) == s2;
    ReplaceKeepsOut(s, [CR], "\\r", CR);
    ReplaceKeepsOut(s1, [LF], "\\n", LF);
    ReplaceKeepsOut(s1, [LF], "\\n", CR);
    OccursOne(CR, s);
    OccursOne(LF, s);
    if FreeOf(s, CR) && FreeOf(s, LF) {
      Unmoved(s, [CR], "\\r");
      Unmoved(s, [LF], "\\n");
    }
  }

  lemma StringSurvives(s: string)
    ensures Unescape(Plain(s)) == s <==> Clean(s)
  {
    hide ReplaceAll, Plain, NothingGuarded;
    BreaksGone(Plain(s));
    UnguardsSettle(s);
    if FreeOf(s, CR) && FreeOf(s, LF) {
      PlainWithout(s);
    } else {
      var t := ReplaceAll(Plain(s), BREAKS);
      ReplaceAllKeepsOut(t, UNESCAPES, CR);
      ReplaceAllKeepsOut(t, UNESCAPES, LF);
    }
  }

  // The round trip restores a value exactly when no string in it has a carriage return, a
  // line feed, or a backslash followed by a bracket or another backslash.
  lemma {:induction false} RoundTrip(v: Value)
    ensures ToPhp(FromPhp(v)) == Embed(v) <==> AllClean(v)
  {
    ParsePrinted(v, []);
    assert FromPhp(v) + [] == FromPhp(v);
    ItemSurvives(v);
  }

  lemma {:induction false} ItemSurvives(v: Value)
    ensures Flatten(ItemOf(v)) == Embed(v) <==> AllClean(v)
    decreases v, 0
  {
    hide Unescape, Clean;
    match v
    case Str(s) => StringSurvives(s);
    case List(items) => ItemsSurvive(items);
  }

  lemma {:induction false} ItemsSurvive(vs: seq<Value>)
    ensures FlattenAll(ItemsOf(vs)) == EmbedAll(vs) <==> forall i :: 0 <= i < |vs| ==> AllClean(vs[i])
    decreases vs, 1
  {
    hide Flatten, ItemOf, Embed, AllClean;
    if vs != [] {
      ItemSurvives(vs[0]);
      ItemsSurvive(vs[1..]);
      var fs := FlattenAll(ItemsOf(vs));
      assert ItemsOf(vs)[1..] == ItemsOf(vs[1..]);
      assert fs == [Flatten(ItemOf(vs[0]))] + FlattenAll(ItemsOf(vs[1..]));
      assert fs[0] == Flatten(ItemOf(vs[0])) && fs[1..] == FlattenAll(ItemsOf(vs[1..]));
      assert EmbedAll(vs)[0] == Embed(vs[0]) && EmbedAll(vs)[1..] == EmbedAll(vs[1..]);
      assert forall i :: 1 <= i < |vs| ==> vs[i] == vs[1..][i - 1];
      if fs[0] == EmbedAll(vs)[0] && fs[1..] == EmbedAll(vs)[1..] {
        assert fs == [fs[0]] + fs[1..];
      }
      if forall i :: 0 <= i < |vs| ==> AllClean(vs[i]) {
        assert forall i :: 0 <= i < |vs[1..]| ==> AllClean(vs[1..][i]);
      }
    }
  }

  // ---- The loop --------------------------------------------------------------------------

  lemma ParseDone(value: string, st: State)
    requires Feed(value, INIT) == st
    ensures !st.done ==> Parse(value) == (EmptyItem, |value|)
    ensures st.done && st.kind == Txt ==> Parse(value) == (StringItem(Inner(st.data)), st.used)
    ensures st.done && st.kind == Exc ==> Parse(value) == (ExceptionItem(Inner(st.data)), st.used)
    ensures st.done && st.kind == Lst
        ==> |Inner(st.data)| < |value| && Parse(value) == (ListItem(ParseList(Inner(st.data))), st.used)
  {
    FeedSize(value, INIT);
  }

  lemma FeedNothing(st: State)
    ensures Feed([], st) == st
  {
  }

  method ItypeParse(value: string) returns (item: Item, used: nat)
    ensures item == Parse(value).0 && used == Parse(value).1
    decreases |value|, 0
  {
    hide Feed, Parse, ParseList, Inner;
    var escape, kind, data, codeCount := false, Blank, [], 0;
    var i: nat := 0;
    while i < |value|
      invariant 0 <= i <= |value|
      invariant Feed(value, INIT) == Feed(value[i..], State(escape, kind, data, codeCount, i, false))
    {
      ghost var st := State(escape, kind, data, codeCount, i, false);
      var c := value[i];
      var wasEscape, control := escape, false;
      escape := c == BACKSLASH && !wasEscape;
      if !wasEscape {
        if kind == Blank {
          kind := Opens(c);
        }
        if kind != Blank && Opens(c) == kind {
          codeCount := codeCount + 1;
        } else if kind != Blank && Closes(c) == kind {
          control, codeCount := true, codeCount - 1;
        }
      } else if c == 'n' {
        c := LF;
      } else if c == 'r' {
        c := CR;
      }
      if kind == Lst && wasEscape {
        data := data + [BACKSLASH];
      }
      if kind != Blank && !escape {
        data := data + [c];
      }
      assert value[i..] == [value[i]] + value[i + 1..];
      FeedOne(value[i], value[i + 1..], st);
      i := i + 1;
      assert Next(st, value[i - 1]) == State(escape, kind, data, codeCount, i, control && codeCount == 0);
      if control && codeCount == 0 {
        FeedClosed(value[i..], Next(st, value[i - 1]));
        ParseDone(value, Next(st, value[i - 1]));
        if kind == Txt {
          return StringItem(Inner(data)), i;
        } else if kind == Exc {
          return ExceptionItem(Inner(data)), i;
        }
        var items := ItypeParseList(Inner(data));
        return ListItem(items), i;
      }
    }
    assert value[i..] == [];
    FeedNothing(State(escape, kind, data, codeCount, i, false));
    ParseDone(value, State(escape, kind, data, codeCount, i, false));
    return EmptyItem, i;
  }

  method ItypeParseList(data: string) returns (items: seq<Item>)
    ensures items == ParseList(data)
    decreases |data|, 1
  {
    var rest := data;
    items := [];
    while rest != []
      invariant |rest| <= |data| && ParseList(data) == items + ParseList(rest)
      decreases |rest|
    {
      var item, n := ItypeParse(rest);
      if item == EmptyItem {
        break;
      }
      rest, items := rest[n..], items + [item];
    }
  }
}
