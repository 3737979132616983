// src/Nick.cpp: the prefixes a nick carries on a channel, kept in the server's order.
module Nicks {
  import opened Basics
  import opened ISupport

  // Better symbols first; characters that are no symbol last.
  predicate Ordered(symbols: string, s: string) {
    forall i, j :: 0 <= i <= j < |s| ==> Find(symbols, s[i]) <= Find(symbols, s[j])
  }

  function Swapped(s: string, i: nat, p: nat): string
    requires i < |s| && p < |s|
  {
    s[i := s[p]][p := s[i]]
  }

  lemma SwapKeeps(s: string, i: nat, p: nat)
    requires i < |s| && p < |s|
    ensures multiset(Swapped(s, i, p)) == multiset(s)
  {
  }

  lemma SwapSorts(symbols: string, s: string, i: nat, p: nat)
    requires i <= p < |s| && SortedUpTo(symbols, s, i)
    requires forall k :: i <= k < |s| ==> Find(symbols, s[p]) <= Find(symbols, s[k])
    ensures SortedUpTo(symbols, Swapped(s, i, p), i + 1)
  {
    var t := Swapped(s, i, p);
    assert t[i] == s[p] && t[p] == s[i];
    forall j, k | 0 <= j <= k < |t| && j < i + 1
      ensures Find(symbols, t[j]) <= Find(symbols, t[k])
    {
      if j < i {
        assert t[j] == s[j];
        assert t[k] == if k == i then s[p] else if k == p then s[i] else s[k];
      } else {
        assert t[k] == if k == i then s[p] else if k == p then s[i] else s[k];
      }
    }
  }

  lemma SameCharacters(s: string, t: string, c: char)
    requires multiset(s) == multiset(t) && !Has(s, c)
    ensures !Has(t, c)
  {
    forall k | 0 <= k < |t|
      ensures t[k] != c
    {
      assert t[k] in multiset(s);
      var j :| 0 <= j < |s| && s[j] == t[k];
    }
  }

  // The filter of RemovePrefix.
  function WithoutChar(s: string, c: char): string {
    if s == [] then [] else (if s[0] != c then [s[0]] else []) + WithoutChar(s[1..], c)
  }

  // Where the best of text[i..] stands, or i when there is no symbol in it.
  method FindBest(prefix: string, text: string, i: nat) returns (p: nat)
    requires i < |text| && !Has(prefix, NUL) && !Has(text, NUL)
    ensures i <= p < |text|
    ensures forall k :: i <= k < |text| ==> Find(Symbols(prefix), text[p]) <= Find(Symbols(prefix), text[k])
  {
    hide Highest, Symbols;
    var highest := GetHighestUserFlag(prefix, Some(text[i..]));
    BestOfRest(prefix, text, i);
    p := i;
    while p < |text| && text[p] != highest
      invariant i <= p <= |text|
      invariant forall k :: i <= k < p ==> text[k] != highest
    {
      p := p + 1;
    }
    if p == |text| {
      p := i;
    }
  }

  lemma SortTurn(symbols: string, first: string, s: string, i: nat, p: nat)
    requires i <= p < |s| && SortedUpTo(symbols, s, i) && multiset(s) == multiset(first) && !Has(first, NUL)
    requires forall k :: i <= k < |s| ==> Find(symbols, s[p]) <= Find(symbols, s[k])
    ensures SortedUpTo(symbols, Swapped(s, i, p), i + 1) && multiset(Swapped(s, i, p)) == multiset(first)
    ensures !Has(Swapped(s, i, p), NUL)
  {
    SwapSorts(symbols, s, i, p);
    SwapKeeps(s, i, p);
    SameCharacters(first, Swapped(s, i, p), NUL);
  }

  method Swap(text: array<char>, i: nat, p: nat)
    requires i < text.Length && p < text.Length
    modifies text
    ensures text[..] == Swapped(old(text[..]), i, p)
  {
    text[p], text[i] := text[i], text[p];
  }

  method SortPrefixes(prefix: string, text: array<char>)
    requires !Has(prefix, NUL) && !Has(text[..], NUL)
    modifies text
    ensures multiset(text[..]) == multiset(old(text[..])) && Ordered(Symbols(prefix), text[..])
  {
    hide *;
    NothingSorted(Symbols(prefix), text[..]);
    ghost var first := text[..];
    var i: nat := 0;
    while i < text.Length
      invariant i <= text.Length && multiset(text[..]) == multiset(first) && !Has(text[..], NUL)
      invariant SortedUpTo(Symbols(prefix), text[..], i)
    {
      var p := FindBest(prefix, text[..], i);
      SortTurn(Symbols(prefix), first, text[..], i, p);
      Swap(text, i, p);
      i := i + 1;
    }
    AllSorted(Symbols(prefix), text[..]);
  }

  lemma NothingSorted(symbols: string, s: string)
    ensures SortedUpTo(symbols, s, 0)
  {
  }

  lemma AllSorted(symbols: string, s: string)
    requires SortedUpTo(symbols, s, |s|)
    ensures Ordered(symbols, s)
  {
  }

  // The first i characters are in order, and none after them should come before.
  predicate SortedUpTo(symbols: string, s: string, i: nat) {
    forall j, k :: 0 <= j <= k < |s| && j < i ==> Find(symbols, s[j]) <= Find(symbols, s[k])
  }

  lemma BestOfRest(prefix: string, s: string, i: nat)
    requires i < |s| && !Has(prefix, NUL) && !Has(s, NUL)
    ensures var h := Highest(Symbols(prefix), s[i..]);
            (h != NUL ==> exists k :: i <= k < |s| && s[k] == h)
            && (h == NUL ==> Find(Symbols(prefix), h) == |Symbols(prefix)|)
            && forall k :: i <= k < |s| ==> Find(Symbols(prefix), h) <= Find(Symbols(prefix), s[k])
  {
    var symbols := Symbols(prefix);
    var h := Highest(symbols, s[i..]);
    forall k | 0 <= k < |symbols|
      ensures symbols[k] != NUL
    {
      assert symbols[k] == prefix[Find(prefix, ')') + 1 + k];
    }
    HighestIsBest(symbols, s[i..]);
    if h != NUL {
      assert s[i + Find(s[i..], h)] == h;
    }
    forall k | i <= k < |s|
      ensures Find(symbols, h) <= Find(symbols, s[k])
    {
      assert s[i..][k - i] == s[k];
      assert Has(s[i..], s[k]);
    }
  }

  // ---- The prefixes of the modes held -------------------------------------------------

  function Shown(modes: string, symbols: string, held: set<char>): string
    requires |modes| == |symbols|
  {
    if modes == [] then []
    else (if modes[0] in held then [symbols[0]] else []) + Shown(modes[1..], symbols[1..], held)
  }

  lemma {:induction false} DistinctCounts(s: string)
    ensures Distinct(s) <==> forall c :: multiset(s)[c] <= 1
  {
    if s != [] {
      DistinctCounts(s[1..]);
      assert s == [s[0]] + s[1..];
      assert multiset(s) == multiset{s[0]} + multiset(s[1..]);
      if Distinct(s) {
        assert s[0] !in multiset(s[1..]);
      } else if Distinct(s[1..]) {
        var j :| 1 <= j < |s| && s[j] == s[0];
        assert s[1..][j - 1] == s[0];
        assert multiset(s)[s[0]] > 1;
      } else {
        var c :| multiset(s[1..])[c] > 1;
        assert multiset(s)[c] > 1;
      }
    }
  }

  lemma HasIsIn(s: string, c: char)
    ensures Has(s, c) <==> c in multiset(s)
  {
    if Has(s, c) {
      assert s[Find(s, c)] == c;
    }
  }

  lemma {:induction false} ShownHas(modes: string, symbols: string, held: set<char>, c: char)
    requires |modes| == |symbols|
    ensures Has(Shown(modes, symbols, held), c)
       <==> exists k :: 0 <= k < |modes| && symbols[k] == c && modes[k] in held
  {
    if modes != [] {
      var rest := Shown(modes[1..], symbols[1..], held);
      ShownHas(modes[1..], symbols[1..], held, c);
      HasIsIn(Shown(modes, symbols, held), c);
      HasIsIn(rest, c);
      if k :| 0 <= k < |modes[1..]| && symbols[1..][k] == c && modes[1..][k] in held {
        assert symbols[k + 1] == c && modes[k + 1] in held;
      }
      if k :| 0 <= k < |modes| && symbols[k] == c && modes[k] in held {
        if k > 0 {
          assert symbols[1..][k - 1] == c && modes[1..][k - 1] in held;
        }
      }
    }
  }

  lemma RestRanks(modes: string, symbols: string, held: set<char>)
    requires |modes| == |symbols| && Distinct(symbols) && modes != []
    ensures var rest := Shown(modes[1..], symbols[1..], held);
            forall i :: 0 <= i < |rest|
              ==> rest[i] != symbols[0] && Find(symbols, rest[i]) == 1 + Find(symbols[1..], rest[i])
    ensures !Has(Shown(modes[1..], symbols[1..], held), symbols[0])
  {
    var rest := Shown(modes[1..], symbols[1..], held);
    forall i | 0 <= i < |rest|
      ensures rest[i] != symbols[0]
    {
      ShownHas(modes[1..], symbols[1..], held, rest[i]);
      assert Has(rest, rest[i]);
    }
  }

  // Free of repeats, in the server's order, and the first is what GetHighestUserFlag finds.
  lemma {:induction false} ShownMeans(modes: string, symbols: string, held: set<char>)
    requires |modes| == |symbols| && Distinct(symbols)
    ensures var s := Shown(modes, symbols, held);
            Distinct(s) && Ordered(symbols, s) && Highest(symbols, s) == if s == [] then NUL else s[0]
  {
    if modes != [] {
      ShownMeans(modes[1..], symbols[1..], held);
      RestRanks(modes, symbols, held);
      FrontMeans(symbols, Shown(modes[1..], symbols[1..], held), modes[0] in held);
    }
  }

  lemma FrontMeans(symbols: string, rest: string, first: bool)
    requires symbols != [] && Distinct(rest) && Ordered(symbols[1..], rest) && !Has(rest, symbols[0])
    requires Highest(symbols[1..], rest) == if rest == [] then NUL else rest[0]
    requires forall i :: 0 <= i < |rest|
               ==> rest[i] != symbols[0] && Find(symbols, rest[i]) == 1 + Find(symbols[1..], rest[i])
    ensures var s := (if first then [symbols[0]] else []) + rest;
            Distinct(s) && Ordered(symbols, s) && Highest(symbols, s) == if s == [] then NUL else s[0]
  {
    hide Find, Ordered, Highest;
    OrderedLater(symbols, rest);
    HighestFront(symbols, rest);
    if first {
      DistinctFront(symbols[0], rest);
      OrderedFront(symbols, rest);
      HighestFront(symbols, [symbols[0]] + rest);
    } else {
      assert [] + rest == rest;
    }
  }

  lemma HighestFront(symbols: string, flags: string)
    requires symbols != []
    ensures Highest(symbols, flags) == if Has(flags, symbols[0]) then symbols[0] else Highest(symbols[1..], flags)
  {
  }

  lemma DistinctFront(c: char, rest: string)
    requires Distinct(rest) && !Has(rest, c)
    ensures Distinct([c] + rest) && Has([c] + rest, c)
  {
  }

  lemma OrderedLater(symbols: string, rest: string)
    requires symbols != [] && Ordered(symbols[1..], rest)
    requires forall i :: 0 <= i < |rest|
               ==> rest[i] != symbols[0] && Find(symbols, rest[i]) == 1 + Find(symbols[1..], rest[i])
    ensures Ordered(symbols, rest)
  {
  }

  lemma OrderedFront(symbols: string, rest: string)
    requires symbols != [] && Ordered(symbols, rest)
    ensures Ordered(symbols, [symbols[0]] + rest) && Find(symbols, symbols[0]) == 0
    ensures Find([symbols[0]] + rest, symbols[0]) == 0
  {
    var s := [symbols[0]] + rest;
    forall i, j | 0 <= i <= j < |s|
      ensures Find(symbols, s[i]) <= Find(symbols, s[j])
    {
      if i > 0 {
        assert s[i] == rest[i - 1] && s[j] == rest[j - 1];
      }
    }
  }

  // Order and content leave one string only.
  lemma {:induction false} OrderedIsShown(modes: string, symbols: string, held: set<char>, s: string)
    requires |modes| == |symbols| && Distinct(symbols) && Distinct(s) && Ordered(symbols, s)
    requires forall k :: 0 <= k < |symbols| ==> (Has(s, symbols[k]) <==> modes[k] in held)
    requires forall i :: 0 <= i < |s| ==> Has(symbols, s[i])
    ensures s == Shown(modes, symbols, held)
    decreases |modes|
  {
    hide Shown;
    if modes == [] {
      KnownNeedSymbols(symbols, s);
      ShownNothing(held);
    } else {
      ShownFront(modes, symbols, held);
      var t := if modes[0] in held then s[1..] else s;
      if modes[0] in held {
        BestFirst(symbols, s);
      }
      Narrowed(modes, symbols, held, s, t);
      OrderedIsShown(modes[1..], symbols[1..], held, t);
    }
  }

  lemma KnownNeedSymbols(symbols: string, s: string)
    requires forall i :: 0 <= i < |s| ==> Has(symbols, s[i])
    ensures s != [] ==> symbols != []
  {
    if s != [] {
      assert Has(symbols, s[0]);
    }
  }

  lemma ShownNothing(held: set<char>)
    ensures Shown([], [], held) == []
  {
  }

  lemma ShownFront(modes: string, symbols: string, held: set<char>)
    requires |modes| == |symbols| && modes != []
    ensures Shown(modes, symbols, held)
         == (if modes[0] in held then [symbols[0]] else []) + Shown(modes[1..], symbols[1..], held)
  {
  }

  lemma BestFirst(symbols: string, s: string)
    requires symbols != [] && Ordered(symbols, s) && Has(s, symbols[0])
    ensures s != [] && s[0] == symbols[0]
  {
    assert Find(symbols, s[0]) <= Find(symbols, s[Find(s, symbols[0])]);
  }

  lemma Narrowed(modes: string, symbols: string, held: set<char>, s: string, t: string)
    requires |modes| == |symbols| && modes != [] && Distinct(symbols) && Distinct(s) && Ordered(symbols, s)
    requires forall k :: 0 <= k < |symbols| ==> (Has(s, symbols[k]) <==> modes[k] in held)
    requires forall i :: 0 <= i < |s| ==> Has(symbols, s[i])
    requires modes[0] in held ==> s != [] && s[0] == symbols[0] && t == s[1..]
    requires modes[0] !in held ==> t == s
    ensures Distinct(t) && Ordered(symbols[1..], t)
    ensures forall k :: 0 <= k < |symbols[1..]| ==> (Has(t, symbols[1..][k]) <==> modes[1..][k] in held)
    ensures forall i :: 0 <= i < |t| ==> Has(symbols[1..], t[i])
  {
    hide Find;
    assert modes[0] !in held ==> !Has(s, symbols[0]);
    NarrowedRanks(symbols, s, t);
    forall k | 0 <= k < |symbols[1..]|
      ensures Has(t, symbols[1..][k]) <==> modes[1..][k] in held
    {
      assert symbols[1..][k] == symbols[k + 1] && modes[1..][k] == modes[k + 1];
      HasIsIn(s, symbols[k + 1]);
      HasIsIn(t, symbols[k + 1]);
      if modes[0] in held {
        assert s == [s[0]] + t;
      }
    }
  }

  lemma NarrowedRanks(symbols: string, s: string, t: string)
    requires symbols != [] && Distinct(s) && Ordered(symbols, s)
    requires forall i :: 0 <= i < |s| ==> Has(symbols, s[i])
    requires (s != [] && s[0] == symbols[0] && t == s[1..]) || (!Has(s, symbols[0]) && t == s)
    ensures Distinct(t) && Ordered(symbols[1..], t)
    ensures forall i :: 0 <= i < |t| ==> Has(symbols[1..], t[i])
  {
    hide Find, Ordered, Distinct;
    var d := |s| - |t|;
    if d == 1 {
      DistinctLater(s);
    }
    forall i | 0 <= i < |t|
      ensures t[i] == s[i + d] && t[i] != symbols[0] && Find(symbols, t[i]) == 1 + Find(symbols[1..], t[i])
    {
      AbsentAt(s, symbols[0], i + d);
      FindLater(symbols, t[i]);
    }
    OrderNarrows(symbols, s, t, d);
  }

  lemma DistinctLater(s: string)
    requires Distinct(s) && s != []
    ensures Distinct(s[1..]) && forall i :: 1 <= i < |s| ==> s[i] != s[0]
  {
  }

  lemma OrderNarrows(symbols: string, s: string, t: string, d: nat)
    requires symbols != [] && Ordered(symbols, s) && |t| + d == |s|
    requires forall i :: 0 <= i < |t| ==> t[i] == s[i + d] && Find(symbols, t[i]) == 1 + Find(symbols[1..], t[i])
    ensures Ordered(symbols[1..], t)
  {
    hide Find;
    forall i, j | 0 <= i <= j < |t|
      ensures Find(symbols[1..], t[i]) <= Find(symbols[1..], t[j])
    {
      assert Find(symbols, s[i + d]) <= Find(symbols, s[j + d]);
    }
  }

  lemma AbsentAt(s: string, c: char, i: nat)
    requires i < |s|
    ensures !Has(s, c) ==> s[i] != c
  {
  }

  lemma FindLater(symbols: string, c: char)
    requires symbols != [] && c != symbols[0]
    ensures Find(symbols, c) == 1 + Find(symbols[1..], c)
  {
  }

  // ---- Adding and removing ----------------------------------------------------------------

  lemma AddedIsShown(modes: string, symbols: string, held: set<char>, k: nat, t: string)
    requires |modes| == |symbols| && Distinct(symbols) && Distinct(modes) && k < |modes|
    requires !Has(Shown(modes, symbols, held), symbols[k])
    requires multiset(t) == multiset(Shown(modes, symbols, held) + [symbols[k]]) && Ordered(symbols, t)
    ensures t == Shown(modes, symbols, held + {modes[k]})
  {
    hide Shown, Find;
    var s := Shown(modes, symbols, held);
    ShownMeans(modes, symbols, held);
    HasIsIn(s, symbols[k]);
    DistinctCounts(s);
    DistinctCounts(t);
    forall j | 0 <= j < |symbols|
      ensures Has(t, symbols[j]) <==> modes[j] in held + {modes[k]}
    {
      HasIsIn(t, symbols[j]);
      HasIsIn(s, symbols[j]);
      ShownHas(modes, symbols, held, symbols[j]);
    }
    forall i | 0 <= i < |t|
      ensures Has(symbols, t[i])
    {
      HasIsIn(s, t[i]);
      ShownHas(modes, symbols, held, t[i]);
      assert t[i] in multiset(t);
      HasIsIn(symbols, t[i]);
    }
    OrderedIsShown(modes, symbols, held + {modes[k]}, t);
  }

  lemma {:induction false} WithoutIsShown(modes: string, symbols: string, held: set<char>, k: nat)
    requires |modes| == |symbols| && Distinct(symbols) && Distinct(modes) && k < |modes|
    ensures WithoutChar(Shown(modes, symbols, held), symbols[k]) == Shown(modes, symbols, held - {modes[k]})
    decreases |modes|
  {
    var rest := Shown(modes[1..], symbols[1..], held);
    WithoutConcat(if modes[0] in held then [symbols[0]] else [], rest, symbols[k]);
    if k == 0 {
      RestRanks(modes, symbols, held);
      WithoutAbsent(rest, symbols[0]);
      ShownOthers(modes[1..], symbols[1..], held, modes[0]);
    } else {
      WithoutIsShown(modes[1..], symbols[1..], held, k - 1);
    }
  }

  lemma {:induction false} WithoutConcat(s: string, t: string, c: char)
    ensures WithoutChar(s + t, c) == WithoutChar(s, c) + WithoutChar(t, c)
  {
    if s == [] {
      assert s + t == t;
    } else {
      assert (s + t)[1..] == s[1..] + t;
      WithoutConcat(s[1..], t, c);
    }
  }

  lemma {:induction false} WithoutAbsent(s: string, c: char)
    requires !Has(s, c)
    ensures WithoutChar(s, c) == s
  {
    if s != [] {
      WithoutAbsent(s[1..], c);
    }
  }

  lemma {:induction false} ShownOthers(modes: string, symbols: string, held: set<char>, m: char)
    requires |modes| == |symbols| && forall i :: 0 <= i < |modes| ==> modes[i] != m
    ensures Shown(modes, symbols, held - {m}) == Shown(modes, symbols, held)
  {
    if modes != [] {
      ShownOthers(modes[1..], symbols[1..], held, m);
    }
  }

  datatype Change = Change(flip: bool, mode: char)

  function Held(modes: string, held: set<char>, changes: seq<Change>): set<char>
    decreases |changes|
  {
    if changes == [] then held
    else
      var c := changes[0];
      Held(modes, if !Has(modes, c.mode) then held else if c.flip then held + {c.mode} else held - {c.mode}, changes[1..])
  }

  class Nick {
    // NULL, or as many characters as the string has.
    var prefixes: array?<char>

    ghost function Text(): string
      reads this, prefixes
    {
      if prefixes == null then [] else prefixes[..]
    }

    ghost predicate Valid()
      reads this, prefixes
    {
      !Has(Text(), NUL)
    }

    constructor ()
      ensures prefixes == null && Valid()
    {
      prefixes := null;
    }

    // strchr also finds the NUL at the end.
    method HasPrefix(c: char) returns (r: bool)
      ensures r <==> prefixes != null && (c == NUL || Has(Text(), c))
    {
      r := prefixes != null && (c == NUL || Has(prefixes[..], c));
    }

    method AddPrefix(prefix: string, c: char)
      requires Valid() && !Has(prefix, NUL)
      modifies this
      ensures Valid() && prefixes != null
      ensures c == NUL || Has(old(Text()), c) ==> Text() == old(Text())
      ensures c != NUL && !Has(old(Text()), c)
          ==> multiset(Text()) == multiset(old(Text()) + [c]) && Ordered(Symbols(prefix), Text())
    {
      var has := HasPrefix(c);
      if has {
        return;
      }
      var text := if prefixes == null then [] else prefixes[..];
      var added := text + (if c == NUL then [] else [c]);
      AppendKeepsOut(text, c);
      prefixes := new char[|added|](i requires 0 <= i < |added| => added[i]);
      assert prefixes[..] == added;
      SortPrefixes(prefix, prefixes);
      SameCharacters(added, prefixes[..], NUL);
      if c == NUL {
        assert |prefixes[..]| == 0;
      }
    }

    method RemovePrefix(c: char)
      requires Valid()
      modifies this
      ensures Valid() && Text() == WithoutChar(old(Text()), c)
    {
      if prefixes == null {
        return;
      }
      var copy := CopyWithout(prefixes[..], c);
      WithoutKeepsOut(prefixes[..], c, NUL);
      prefixes := new char[|copy|](i requires 0 <= i < |copy| => copy[i]);
      assert prefixes[..] == copy;
    }

    // The changes to one nick that ParseModeChange comes across.
    method ChangeModes(prefix: string, changes: seq<Change>,
                       ghost modes: string, ghost symbols: string, ghost held: set<char>)
      requires Valid() && Prefix(prefix, modes, symbols) && !Has(prefix, NUL)
      requires Text() == Shown(modes, symbols, held)
      modifies this
      ensures Valid() && Text() == Shown(modes, symbols, Held(modes, held, changes))
    {
      hide *;
      PrefixLengths(prefix, modes, symbols);
      ghost var now := held;
      var i: nat := 0;
      assert changes[0..] == changes;
      while i < |changes|
        invariant i <= |changes| && Valid() && Text() == Shown(modes, symbols, now)
        invariant Held(modes, now, changes[i..]) == Held(modes, held, changes)
      {
        HeldFirst(modes, now, changes[i..]);
        assert changes[i..][1..] == changes[i + 1..];
        ChangeMode(prefix, changes[i], modes, symbols, now);
        now := Held(modes, now, [changes[i]]);
        i := i + 1;
      }
      assert changes[i..] == [];
      HeldFirst(modes, now, []);
    }

    method ChangeMode(prefix: string, change: Change,
                      ghost modes: string, ghost symbols: string, ghost held: set<char>)
      requires Valid() && Prefix(prefix, modes, symbols) && !Has(prefix, NUL)
      requires Text() == Shown(modes, symbols, held)
      modifies this
      ensures Valid() && Text() == Shown(modes, symbols, Held(modes, held, [change]))
    {
      var nickMode := IsNickMode(prefix, change.mode);
      hide Find, Has, Held, Shown, WithoutChar, Symbols, SymbolFor, Ordered, Distinct;
      PrefixMeans(prefix, modes, symbols);
      HeldOne(modes, held, change);
      if nickMode {
        var c := PrefixForChanMode(prefix, change.mode);
        ChangedIsShown(prefix, modes, symbols, held, change);
        if change.flip {
          AddPrefix(prefix, c);
        } else {
          RemovePrefix(c);
        }
      }
    }
  }

  lemma ChangedIsShown(prefix: string, modes: string, symbols: string, held: set<char>, change: Change)
    requires Prefix(prefix, modes, symbols) && Has(modes, change.mode)
    ensures var (c, s) := (SymbolFor(prefix, change.mode), Shown(modes, symbols, held));
            var s' := Shown(modes, symbols, Held(modes, held, [change]));
            c != NUL && Symbols(prefix) == symbols
            && (!change.flip ==> WithoutChar(s, c) == s')
            && (change.flip && Has(s, c) ==> s == s')
            && (change.flip && !Has(s, c) ==>
                  forall t :: multiset(t) == multiset(s + [c]) && Ordered(symbols, t) ==> t == s')
  {
    PrefixMeans(prefix, modes, symbols);
    var k := Find(modes, change.mode);
    var c := symbols[k];
    var s := Shown(modes, symbols, held);
    HeldOne(modes, held, change);
    assert c != NUL by { assert Find(symbols, NUL) == |symbols|; }
    if !change.flip {
      WithoutIsShown(modes, symbols, held, k);
    } else if Has(s, c) {
      ShownHas(modes, symbols, held, c);
      assert held + {change.mode} == held;
    } else {
      forall t | multiset(t) == multiset(s + [c]) && Ordered(symbols, t)
        ensures t == Shown(modes, symbols, held + {change.mode})
      {
        AddedIsShown(modes, symbols, held, k, t);
      }
    }
  }

  lemma HeldOne(modes: string, held: set<char>, c: Change)
    ensures Held(modes, held, [c])
         == if !Has(modes, c.mode) then held else if c.flip then held + {c.mode} else held - {c.mode}
  {
    assert [c][1..] == [];
  }

  lemma PrefixLengths(prefix: string, modes: string, symbols: string)
    requires Prefix(prefix, modes, symbols)
    ensures |modes| == |symbols| && Distinct(modes) && Distinct(symbols) && !Has(symbols, NUL)
  {
  }

  // The copying loop of RemovePrefix.
  method CopyWithout(text: string, c: char) returns (copy: string)
    ensures copy == WithoutChar(text, c)
  {
    copy := [];
    var i: nat := 0;
    while i < |text|
      invariant i <= |text| && copy + WithoutChar(text[i..], c) == WithoutChar(text, c)
    {
      assert text[i..][1..] == text[i + 1..];
      if text[i] != c {
        copy := copy + [text[i]];
      }
      i := i + 1;
    }
  }

  lemma HeldFirst(modes: string, held: set<char>, changes: seq<Change>)
    ensures changes != [] ==> Held(modes, Held(modes, held, [changes[0]]), changes[1..]) == Held(modes, held, changes)
    ensures changes == [] ==> Held(modes, held, changes) == held
  {
    if changes != [] {
      assert [changes[0]][1..] == [];
      assert forall h :: Held(modes, h, []) == h;
    }
  }

  lemma AppendKeepsOut(s: string, c: char)
    requires !Has(s, NUL)
    ensures c != NUL ==> !Has(s + [c], NUL)
    ensures !Has(s + [], NUL)
  {
  }

  lemma {:induction false} WithoutKeepsOut(s: string, c: char, d: char)
    requires !Has(s, d)
    ensures !Has(WithoutChar(s, c), d)
  {
    if s != [] {
      WithoutKeepsOut(s[1..], c, d);
    }
  }
}
