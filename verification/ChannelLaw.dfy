// What a mode line says, apart from the parser of src/Channel.cpp: section 3.2.3 of RFC 2812.
module ChannelLaw {
  import opened Basics
  import opened ISupport
  import opened Nicks
  import opened Channels
  import opened ChannelModes

  // One change, and whether its sign is written although the one before has the same.
  datatype ModeChange = ModeChange(flip: bool, mode: char, parameter: Option<string>, signed: bool)

  // Modes of nicks and of the first two lists always take a parameter, modes of the third
  // only when they are set, and all others none.
  predicate Takes(sv: Server, c: ModeChange) {
    NickMode(sv, c.mode) || Type(sv, c.mode) == 3 || Type(sv, c.mode) == 2 || (Type(sv, c.mode) == 1 && c.flip)
  }

  predicate Meant(sv: Server, c: ModeChange) {
    c.mode != '+' && c.mode != '-' && c.mode != NUL && (c.parameter.Some? <==> Takes(sv, c))
  }

  function Sign(flip: bool): char {
    if flip then '+' else '-'
  }

  // The changes as a mode string, when the sign in force is that of flip.
  function Written(cs: seq<ModeChange>, flip: bool): string {
    if cs == [] then []
    else
      (if cs[0].signed || cs[0].flip != flip then [Sign(cs[0].flip), cs[0].mode] else [cs[0].mode])
      + Written(cs[1..], cs[0].flip)
  }

  function Given(cs: seq<ModeChange>): seq<string> {
    if cs == [] then [] else (if cs[0].parameter.Some? then [cs[0].parameter.value] else []) + Given(cs[1..])
  }

  // The modes of the channel after the changes.
  function Applied(sv: Server, m: Settings, cs: seq<ModeChange>): Settings
    decreases |cs|
  {
    if cs == [] then m
    else
      var c := cs[0];
      Applied(sv, if NickMode(sv, c.mode) then m else if c.flip then m[c.mode := c.parameter] else m - {c.mode}, cs[1..])
  }

  // The changes to nicks, each with the nick it names.
  function NickChanges(sv: Server, cs: seq<ModeChange>): seq<NickCall> {
    if cs == [] then []
    else
      (if NickMode(sv, cs[0].mode) && cs[0].parameter.Some?
       then [NickCall(cs[0].parameter.value, Change(cs[0].flip, cs[0].mode))] else [])
      + NickChanges(sv, cs[1..])
  }

  // For every list of changes, each with a parameter exactly if it takes one, and however
  // the signs are written: the parser does these changes, with these parameters, in order.
  lemma {:induction false} LineMeans(sv: Server, slots: seq<Slot>, cs: seq<ModeChange>, argv: seq<string>, flip: bool, p: nat)
    requires Sound(sv, slots) && (forall k :: 0 <= k < |cs| ==> Meant(sv, cs[k]))
    requires p <= |argv| && argv[p..] == Given(cs)
    ensures var o := Parse(sv, slots, Written(cs, flip), argv, flip, p);
      Sound(sv, o.slots) && View(o.slots) == Applied(sv, View(slots), cs) && o.calls == NickChanges(sv, cs)
    decreases |cs|
  {
    hide Class, NickMode, View, Parse, Sound;
    if cs == [] {
      ParseNothing(sv, slots, argv, flip, p);
    } else {
      var c, rest := cs[0], cs[1..];
      assert Meant(sv, cs[0]);
      assert forall k :: 0 <= k < |rest| ==> rest[k] == cs[k + 1];
      SignRead(sv, slots, cs, argv, flip, p);
      var text := [c.mode] + Written(rest, c.flip);
      assert text[1..] == Written(rest, c.flip);
      ParseFront(sv, slots, text, argv, c.flip, p);
      var q := if c.parameter.Some? then p + 1 else p;
      GivenFront(cs, argv, p);
      if NickMode(sv, c.mode) {
        LineMeans(sv, slots, rest, argv, c.flip, q);
      } else {
        var slot := Slot(c.mode, c.parameter);
        ClassBound(sv, c.mode);
        OneChange(sv, slots, c);
        LineMeans(sv, if c.flip then Put(slots, slot) else Drop(slots, c.mode), rest, argv, c.flip, q);
      }
    }
  }

  lemma ClassBound(sv: Server, c: char)
    ensures Type(sv, c) <= 3
  {
  }

  lemma GivenFront(cs: seq<ModeChange>, argv: seq<string>, p: nat)
    requires cs != [] && p <= |argv| && argv[p..] == Given(cs)
    ensures cs[0].parameter.Some? ==> p < |argv| && argv[p] == cs[0].parameter.value && argv[p + 1..] == Given(cs[1..])
    ensures cs[0].parameter.None? ==> argv[p..] == Given(cs[1..])
  {
    if cs[0].parameter.Some? {
      assert argv[p] == argv[p..][0] && argv[p + 1..] == argv[p..][1..];
    }
  }

  lemma SignRead(sv: Server, slots: seq<Slot>, cs: seq<ModeChange>, argv: seq<string>, flip: bool, p: nat)
    requires cs != []
    ensures Parse(sv, slots, Written(cs, flip), argv, flip, p)
         == Parse(sv, slots, [cs[0].mode] + Written(cs[1..], cs[0].flip), argv, cs[0].flip, p)
  {
    hide Class, NickMode, Parse;
    var c := cs[0];
    var tail := Written(cs[1..], c.flip);
    if c.signed || c.flip != flip {
      var text := Written(cs, flip);
      assert text == [Sign(c.flip), c.mode] + tail;
      assert text[0] == Sign(c.flip) && text[1..] == [c.mode] + tail;
      ParseFront(sv, slots, text, argv, flip, p);
    }
  }

  lemma OneChange(sv: Server, slots: seq<Slot>, c: ModeChange)
    requires Sound(sv, slots) && Meant(sv, c) && !NickMode(sv, c.mode)
    ensures c.flip ==> var next := Put(slots, Slot(c.mode, c.parameter));
              Sound(sv, next) && View(next) == View(slots)[c.mode := c.parameter]
    ensures !c.flip ==> var next := Drop(slots, c.mode); Sound(sv, next) && View(next) == View(slots) - {c.mode}
  {
    hide Class, NickMode, View, Put, Drop, Unique;
    if c.flip {
      PutView(slots, Slot(c.mode, c.parameter));
      PutProper(sv, slots, Slot(c.mode, c.parameter));
    } else {
      DropView(slots, c.mode);
      DropProper(sv, slots, c.mode);
    }
  }

  // A mode string read into a channel, from the start.
  lemma ModeLineMeans(sv: Server, slots: seq<Slot>, cs: seq<ModeChange>)
    requires Sound(sv, slots) && (forall k :: 0 <= k < |cs| ==> Meant(sv, cs[k]))
    ensures var o := Parse(sv, slots, Written(cs, true), Given(cs), true, 0);
      View(o.slots) == Applied(sv, View(slots), cs) && o.calls == NickChanges(sv, cs)
  {
    hide *;
    assert Given(cs)[0..] == Given(cs);
    LineMeans(sv, slots, cs, Given(cs), true, 0);
  }
}
