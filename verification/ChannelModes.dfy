// What the mode parser and printer of src/Channel.cpp mean: the slots stand for a map from
// modes to parameters, and what is printed reads back.
module ChannelModes {
  import opened Basics
  import opened ISupport
  import opened Channels

  predicate Unique(slots: seq<Slot>) {
    forall i, j :: 0 <= i < j < |slots| && slots[i].mode != NUL ==> slots[i].mode != slots[j].mode
  }

  predicate Proper(sv: Server, slot: Slot) {
    if slot.mode == NUL then slot.parameter == None
    else slot.mode != '+' && slot.mode != '-' && !NickMode(sv, slot.mode)
         && (slot.parameter.Some? ==> Type(sv, slot.mode) != 0)
  }

  predicate Sound(sv: Server, slots: seq<Slot>) {
    Unique(slots) && forall i :: 0 <= i < |slots| ==> Proper(sv, slots[i])
  }

  type Settings = map<char, Option<string>>

  ghost function Live(slots: seq<Slot>): set<char> {
    set i | 0 <= i < |slots| && slots[i].mode != NUL :: slots[i].mode
  }

  lemma LiveIsFound(slots: seq<Slot>, c: char)
    ensures c in Live(slots) <==> c != NUL && FindSlot(slots, c) < |slots|
  {
    var k := FindSlot(slots, c);
    if k < |slots| && c != NUL {
      assert slots[k].mode in Live(slots);
    }
  }

  ghost function View(slots: seq<Slot>): Settings {
    map c | c in Live(slots) :: Parameter(slots, c)
  }

  function Parameter(slots: seq<Slot>, c: char): Option<string> {
    if FindSlot(slots, c) < |slots| then slots[FindSlot(slots, c)].parameter else None
  }

  lemma FindIsSlot(slots: seq<Slot>, c: char, k: nat)
    requires Unique(slots) && k < |slots| && slots[k].mode == c && c != NUL
    ensures FindSlot(slots, c) == k
  {
  }

  // ---- The same run on a map -----------------------------------------------------------

  function Interpret(sv: Server, m: Settings, text: string, argv: seq<string>, flip: bool, p: nat): Settings
    decreases |text|
  {
    if text == [] then m
    else
      var c, rest := text[0], text[1..];
      if c == '+' || c == '-' then Interpret(sv, m, rest, argv, c == '+', p)
      else if NickMode(sv, c) then
        if p >= |argv| then m else Interpret(sv, m, rest, argv, flip, p + 1)
      else
        Interpret(sv, if flip then m[c := Argument(sv, c, argv, p)] else m - {c},
                  rest, argv, flip, p + Taken(sv, c, flip, |argv|, p))
  }

  lemma ViewAt(slots: seq<Slot>, c: char, k: nat)
    requires Unique(slots) && c != NUL
    requires k < |slots| ==> slots[k].mode == c
    requires k >= |slots| ==> FindSlot(slots, c) == |slots|
    ensures c in View(slots) <==> k < |slots|
    ensures c in View(slots) ==> View(slots)[c] == slots[k].parameter
  {
    LiveIsFound(slots, c);
    if k < |slots| {
      FindIsSlot(slots, c, k);
    }
  }

  lemma NoNul(slots: seq<Slot>)
    ensures NUL !in View(slots)
  {
  }

  lemma PutUnique(slots: seq<Slot>, slot: Slot)
    requires Unique(slots) && slot.mode != NUL
    ensures Unique(Put(slots, slot))
  {
  }

  lemma PutAt(slots: seq<Slot>, slot: Slot, c: char)
    requires Unique(slots) && slot.mode != NUL && c != NUL
    ensures c in View(Put(slots, slot)) <==> c in View(slots) || c == slot.mode
    ensures c in View(Put(slots, slot))
        ==> View(Put(slots, slot))[c] == if c == slot.mode then slot.parameter else View(slots)[c]
  {
    hide View, Unique;
    PutUnique(slots, slot);
    var k, i := FindSlot(slots, slot.mode), FindSlot(slots, c);
    var after := Put(slots, slot);
    ViewAt(slots, c, i);
    if c == slot.mode {
      ViewAt(after, c, k);
    } else if i < |slots| {
      assert after[i] == slots[i];
      ViewAt(after, c, i);
    } else {
      assert FindSlot(after, c) == |after|;
      ViewAt(after, c, |after|);
    }
  }

  lemma PutView(slots: seq<Slot>, slot: Slot)
    requires Unique(slots) && slot.mode != NUL
    ensures Unique(Put(slots, slot)) && View(Put(slots, slot)) == View(slots)[slot.mode := slot.parameter]
  {
    hide View, Unique, Put;
    PutUnique(slots, slot);
    NoNul(slots);
    NoNul(Put(slots, slot));
    forall c | c != NUL
      ensures c in View(Put(slots, slot)) <==> c in View(slots)[slot.mode := slot.parameter]
      ensures c in View(Put(slots, slot)) ==> View(Put(slots, slot))[c] == View(slots)[slot.mode := slot.parameter][c]
    {
      PutAt(slots, slot, c);
    }
  }

  lemma DropAt(slots: seq<Slot>, mode: char, c: char)
    requires Unique(slots) && mode != NUL && c != NUL
    ensures Unique(Drop(slots, mode))
    ensures c in View(Drop(slots, mode)) <==> c in View(slots) && c != mode
    ensures c in View(Drop(slots, mode)) ==> View(Drop(slots, mode))[c] == View(slots)[c]
  {
    hide View;
    var k, i := FindSlot(slots, mode), FindSlot(slots, c);
    var after := Drop(slots, mode);
    ViewAt(slots, c, i);
    if c != mode && i < |slots| {
      assert after[i] == slots[i];
      ViewAt(after, c, i);
    } else {
      assert FindSlot(after, c) == |after|;
      ViewAt(after, c, |after|);
    }
  }

  lemma DropView(slots: seq<Slot>, mode: char)
    requires Unique(slots) && mode != NUL
    ensures Unique(Drop(slots, mode)) && View(Drop(slots, mode)) == View(slots) - {mode}
  {
    hide View, Unique, Drop;
    NoNul(slots);
    NoNul(Drop(slots, mode));
    DropAt(slots, mode, mode);
    forall c | c != NUL
      ensures c in View(Drop(slots, mode)) <==> c in View(slots) - {mode}
      ensures c in View(Drop(slots, mode)) ==> View(Drop(slots, mode))[c] == (View(slots) - {mode})[c]
    {
      DropAt(slots, mode, c);
    }
  }

  // A mode change keeps one slot per mode and does to the map what it should.
  lemma {:induction false} ParseRefines(sv: Server, slots: seq<Slot>, text: string, argv: seq<string>, flip: bool, p: nat)
    requires Sound(sv, slots) && !Has(text, NUL)
    ensures var o := Parse(sv, slots, text, argv, flip, p);
            Sound(sv, o.slots) && View(o.slots) == Interpret(sv, View(slots), text, argv, flip, p)
    decreases |text|
  {
    hide Class, View, Put, Drop, Unique;
    if text != [] {
      var c, rest := text[0], text[1..];
      assert c != NUL;
      if c == '+' || c == '-' {
        ParseRefines(sv, slots, rest, argv, c == '+', p);
      } else if NickMode(sv, c) {
        if p < |argv| {
          ParseRefines(sv, slots, rest, argv, flip, p + 1);
        }
      } else {
        var slot := Slot(c, Argument(sv, c, argv, p));
        var next := if flip then Put(slots, slot) else Drop(slots, c);
        if flip {
          PutView(slots, slot);
          PutProper(sv, slots, slot);
        } else {
          DropView(slots, c);
          DropProper(sv, slots, c);
        }
        ParseRefines(sv, next, rest, argv, flip, p + Taken(sv, c, flip, |argv|, p));
      }
    }
  }

  lemma PutProper(sv: Server, slots: seq<Slot>, slot: Slot)
    requires Proper(sv, slot) && forall i :: 0 <= i < |slots| ==> Proper(sv, slots[i])
    ensures forall i :: 0 <= i < |Put(slots, slot)| ==> Proper(sv, Put(slots, slot)[i])
  {
  }

  lemma DropProper(sv: Server, slots: seq<Slot>, c: char)
    requires forall i :: 0 <= i < |slots| ==> Proper(sv, slots[i])
    ensures forall i :: 0 <= i < |Drop(slots, c)| ==> Proper(sv, Drop(slots, c)[i])
  {
  }

  // ---- A parameter exactly when the class needs one -----------------------------------

  predicate Exact(sv: Server, m: Settings) {
    forall c :: c in m ==> (m[c].Some? <==> Type(sv, c) != 0)
  }

  // Some mode is set that needs a parameter when there is none left.
  predicate Starves(sv: Server, text: string, argc: nat, flip: bool, p: nat)
    decreases |text|
  {
    text != [] &&
    var c, rest := text[0], text[1..];
    if c == '+' || c == '-' then Starves(sv, rest, argc, c == '+', p)
    else if NickMode(sv, c) then p < argc && Starves(sv, rest, argc, flip, p + 1)
    else (flip && Type(sv, c) != 0 && p >= argc) || Starves(sv, rest, argc, flip, p + Taken(sv, c, flip, argc, p))
  }

  lemma {:induction false} EnoughIsExact(sv: Server, m: Settings, text: string, argv: seq<string>, flip: bool, p: nat)
    requires Exact(sv, m) && !Starves(sv, text, |argv|, flip, p)
    ensures Exact(sv, Interpret(sv, m, text, argv, flip, p))
    decreases |text|
  {
    hide Class, NickMode;
    if text != [] {
      var c, rest := text[0], text[1..];
      if c == '+' || c == '-' {
        EnoughIsExact(sv, m, rest, argv, c == '+', p);
      } else if NickMode(sv, c) {
        if p < |argv| {
          EnoughIsExact(sv, m, rest, argv, flip, p + 1);
        }
      } else {
        EnoughIsExact(sv, if flip then m[c := Argument(sv, c, argv, p)] else m - {c},
                      rest, argv, flip, p + Taken(sv, c, flip, |argv|, p));
      }
    }
  }

  lemma {:induction false} StarvedStays(sv: Server, m: Settings, text: string, argv: seq<string>, p: nat, hungry: char)
    requires !Has(text, '-') && p >= |argv| && hungry in m && m[hungry].None? && Type(sv, hungry) != 0
    ensures !Exact(sv, Interpret(sv, m, text, argv, true, p))
    decreases |text|
  {
    hide Class, NickMode;
    if text != [] {
      var c, rest := text[0], text[1..];
      if c == '+' {
        StarvedStays(sv, m, rest, argv, p, hungry);
      } else if !NickMode(sv, c) {
        StarvedStays(sv, m[c := Argument(sv, c, argv, p)], rest, argv, p + Taken(sv, c, true, |argv|, p), hungry);
      }
    }
  }

  // When nothing is taken away, as in a 324 reply, it is exact only then.
  lemma {:induction false} SetIsExact(sv: Server, m: Settings, text: string, argv: seq<string>, p: nat)
    requires Exact(sv, m) && !Has(text, '-')
    ensures Exact(sv, Interpret(sv, m, text, argv, true, p)) <==> !Starves(sv, text, |argv|, true, p)
    decreases |text|
  {
    hide Class, NickMode, Find;
    if text != [] {
      var c, rest := text[0], text[1..];
      NoDash(text);
      if c == '+' {
        SetIsExact(sv, m, rest, argv, p);
      } else if NickMode(sv, c) {
        if p < |argv| {
          SetIsExact(sv, m, rest, argv, p + 1);
        }
      } else {
        var next := m[c := Argument(sv, c, argv, p)];
        if Type(sv, c) != 0 && p >= |argv| {
          StarvedStays(sv, next, rest, argv, p + Taken(sv, c, true, |argv|, p), c);
        } else {
          SetIsExact(sv, next, rest, argv, p + Taken(sv, c, true, |argv|, p));
        }
      }
    }
  }

  lemma NoDash(text: string)
    requires !Has(text, '-') && text != []
    ensures text[0] != '-' && !Has(text[1..], '-')
  {
  }

  // The modes that were last set when there was no parameter left for them.
  function Hungry(sv: Server, text: string, argc: nat, flip: bool, p: nat, h: set<char>): set<char>
    decreases |text|
  {
    if text == [] then h
    else
      var c, rest := text[0], text[1..];
      if c == '+' || c == '-' then Hungry(sv, rest, argc, c == '+', p, h)
      else if NickMode(sv, c) then (if p >= argc then h else Hungry(sv, rest, argc, flip, p + 1, h))
      else
        Hungry(sv, rest, argc, flip, p + Taken(sv, c, flip, argc, p),
               if flip && Type(sv, c) != 0 && p >= argc then h + {c} else h - {c})
  }

  ghost predicate Lacks(sv: Server, m: Settings, h: set<char>) {
    forall c :: (c in h <==> c in m && m[c].None? && Type(sv, c) != 0)
                && (c in m && m[c].Some? ==> Type(sv, c) != 0)
  }

  lemma {:induction false} HungryLack(sv: Server, m: Settings, h: set<char>, text: string, argv: seq<string>, flip: bool, p: nat)
    requires Lacks(sv, m, h)
    ensures Lacks(sv, Interpret(sv, m, text, argv, flip, p), Hungry(sv, text, |argv|, flip, p, h))
    decreases |text|
  {
    hide Class, NickMode;
    if text != [] {
      var c, rest := text[0], text[1..];
      if c == '+' || c == '-' {
        HungryLack(sv, m, h, rest, argv, c == '+', p);
      } else if NickMode(sv, c) {
        if p < |argv| {
          HungryLack(sv, m, h, rest, argv, flip, p + 1);
        }
      } else {
        HungryLack(sv, if flip then m[c := Argument(sv, c, argv, p)] else m - {c},
                   if flip && Type(sv, c) != 0 && p >= |argv| then h + {c} else h - {c},
                   rest, argv, flip, p + Taken(sv, c, flip, |argv|, p));
      }
    }
  }

  // For every change of an exact channel: it stays exact exactly when no mode is left that
  // was last set without a parameter to take.
  lemma StaysExact(sv: Server, slots: seq<Slot>, text: string, argv: seq<string>)
    requires Sound(sv, slots) && !Has(text, NUL) && Exact(sv, View(slots))
    ensures Exact(sv, View(Parse(sv, slots, text, argv, true, 0).slots)) <==> Hungry(sv, text, |argv|, true, 0, {}) == {}
  {
    hide Class, NickMode, View, Hungry;
    ParseRefines(sv, slots, text, argv, true, 0);
    HungryLack(sv, View(slots), {}, text, argv, true, 0);
    var m, h := Interpret(sv, View(slots), text, argv, true, 0), Hungry(sv, text, |argv|, true, 0, {});
    if h == {} {
      assert forall c :: c !in h;
    } else {
      var c :| c in h;
      assert c in m && m[c].None? && Type(sv, c) != 0;
    }
  }

  // A mode set without its parameter keeps its letter and has none.
  lemma ParameterCanBeMissing(sv: Server)
    requires !NickMode(sv, 'k') && Type(sv, 'k') != 0
    ensures View(Parse(sv, [], "+k", [], true, 0).slots) == map['k' := None]
    ensures !Exact(sv, View(Parse(sv, [], "+k", [], true, 0).slots))
  {
    var text := "+k";
    assert text[0] == '+' && text[1..][0] == 'k' && text[1..][1..] == [];
    ParseRefines(sv, [], text, [], true, 0);
    assert View([]) == map[];
    var m := Interpret(sv, map[], text, [], true, 0);
    assert m == Interpret(sv, map[], text[1..], [], true, 0);
    assert m == map[]['k' := None];
  }
}
