// src/Channel.cpp: the modes of a channel, their parser and their printer.
module Channels {
  import opened Basics
  import opened ISupport
  import opened Nicks

  datatype Server = Server(prefix: string, chanmodes: string)

  // A slot whose mode was taken away has mode NUL and stays.
  datatype Slot = Slot(mode: char, parameter: Option<string>)

  datatype NickCall = NickCall(nick: string, change: Change)

  // The slots after a mode change and the calls it made on nicks.
  datatype Outcome = Outcome(slots: seq<Slot>, calls: seq<NickCall>)

  function FindSlot(slots: seq<Slot>, mode: char): (k: nat)
    ensures k <= |slots| && (k < |slots| ==> slots[k].mode == mode)
    ensures forall i :: 0 <= i < k ==> slots[i].mode != mode
  {
    if slots == [] || slots[0].mode == mode then 0 else 1 + FindSlot(slots[1..], mode)
  }

  predicate NickMode(sv: Server, c: char) {
    c != '(' && Find(sv.prefix, c) < Find(sv.prefix, ')')
  }

  function Type(sv: Server, c: char): nat {
    Class(sv.chanmodes, c)
  }

  function Put(slots: seq<Slot>, slot: Slot): seq<Slot> {
    var k := FindSlot(slots, slot.mode);
    if k < |slots| then slots[k := slot] else slots + [slot]
  }

  function Drop(slots: seq<Slot>, mode: char): seq<Slot> {
    var k := FindSlot(slots, mode);
    if k < |slots| then slots[k := Slot(NUL, None)] else slots
  }

  function Argument(sv: Server, c: char, argv: seq<string>, p: nat): Option<string> {
    if Type(sv, c) != 0 && p < |argv| then Some(argv[p]) else None
  }

  // How many parameters a mode that is not about a nick takes off the list.
  function Taken(sv: Server, c: char, flip: bool, argc: nat, p: nat): nat {
    if flip then (if Type(sv, c) != 0 && p < argc then 1 else 0) else if Type(sv, c) > 1 then 1 else 0
  }

  function Parse(sv: Server, slots: seq<Slot>, text: string, argv: seq<string>, flip: bool, p: nat): Outcome
    decreases |text|
  {
    if text == [] then Outcome(slots, [])
    else
      var c, rest := text[0], text[1..];
      if c == '+' || c == '-' then Parse(sv, slots, rest, argv, c == '+', p)
      else if NickMode(sv, c) then
        if p >= |argv| then Outcome(slots, [])
        else
          var o := Parse(sv, slots, rest, argv, flip, p + 1);
          o.(calls := [NickCall(argv[p], Change(flip, c))] + o.calls)
      else
        Parse(sv, if flip then Put(slots, Slot(c, Argument(sv, c, argv, p))) else Drop(slots, c),
              rest, argv, flip, p + Taken(sv, c, flip, |argv|, p))
  }

  lemma ParseNothing(sv: Server, slots: seq<Slot>, argv: seq<string>, flip: bool, p: nat)
    ensures Parse(sv, slots, [], argv, flip, p) == Outcome(slots, [])
  {
  }

  lemma ParseFront(sv: Server, slots: seq<Slot>, text: string, argv: seq<string>, flip: bool, p: nat)
    requires text != []
    ensures var (c, rest) := (text[0], text[1..]);
            Parse(sv, slots, text, argv, flip, p)
            == if c == '+' || c == '-' then Parse(sv, slots, rest, argv, c == '+', p)
               else if NickMode(sv, c) then
                 if p >= |argv| then Outcome(slots, [])
                 else
                   var o := Parse(sv, slots, rest, argv, flip, p + 1);
                   o.(calls := [NickCall(argv[p], Change(flip, c))] + o.calls)
               else
                 Parse(sv, if flip then Put(slots, Slot(c, Argument(sv, c, argv, p))) else Drop(slots, c),
                       rest, argv, flip, p + Taken(sv, c, flip, |argv|, p))
  {
  }

  // ---- Printing ----------------------------------------------------------------------------

  predicate Printed(sv: Server, slot: Slot) {
    slot.mode != NUL && Type(sv, slot.mode) != 3
  }

  function Letters(sv: Server, slots: seq<Slot>): string {
    if slots == [] then []
    else (if Printed(sv, slots[0]) then [slots[0].mode] else []) + Letters(sv, slots[1..])
  }

  function Parameters(sv: Server, slots: seq<Slot>): seq<string> {
    if slots == [] then []
    else (if Printed(sv, slots[0]) && slots[0].parameter.Some? then [slots[0].parameter.value] else [])
         + Parameters(sv, slots[1..])
  }

  // strmcat: as much of s as fits before the NUL.
  function Cat(text: string, s: string, size: nat): string
    requires |text| < size
  {
    if |s| <= size - |text| - 1 then text + s else text + s[..size - |text| - 1]
  }

  function Grown(length: nat, size: nat, parameter: string): nat {
    if length + |parameter| > size then size + |parameter| + 1024 else size
  }

  function Append(text: string, size: nat, parameters: seq<string>): string
    requires |text| < size
    decreases |parameters|
  {
    if parameters == [] then text
    else
      var blank := Cat(text, " ", size);
      var grown := Grown(|blank|, size, parameters[0]);
      Append(Cat(blank, parameters[0], grown), grown, parameters[1..])
  }

  function Text(sv: Server, slots: seq<Slot>): string
  {
    LettersFit(sv, slots);
    Append("+" + Letters(sv, slots), |slots| + 1024, Parameters(sv, slots))
  }

  lemma {:induction false} LettersFit(sv: Server, slots: seq<Slot>)
    ensures |Letters(sv, slots)| <= |slots|
  {
    if slots != [] {
      LettersFit(sv, slots[1..]);
    }
  }

  // ---- The channel -------------------------------------------------------------------------

  class Channel {
    var modes: seq<Slot>

    constructor ()
      ensures modes == []
    {
      modes := [];
    }

    method ClearModes()
      modifies this
      ensures modes == []
    {
      modes := [];
    }

    // The slot for a mode, or the length of the list.
    method Locate(mode: char) returns (i: nat)
      ensures i == FindSlot(modes, mode)
    {
      i := 0;
      while i < |modes| && modes[i].mode != mode
        invariant i <= |modes| && i <= FindSlot(modes, mode)
      {
        i := i + 1;
      }
    }

    method ParseModeChange(sv: Server, text: string, argv: seq<string>) returns (calls: seq<NickCall>)
      modifies this
      ensures Outcome(modes, calls) == Parse(sv, old(modes), text, argv, true, 0)
    {
      hide Class, Find, Parse;
      var flip := true;
      var p: nat := 0;
      calls := [];
      var i: nat := 0;
      assert text[0..] == text;
      while i < |text|
        invariant i <= |text|
        invariant var o := Parse(sv, modes, text[i..], argv, flip, p);
                  o.(calls := calls + o.calls) == Parse(sv, old(modes), text, argv, true, 0)
      {
        var c := text[i];
        assert text[i..][0] == c && text[i..][1..] == text[i + 1..];
        ParseFront(sv, modes, text[i..], argv, flip, p);
        i := i + 1;
        if c == '+' {
          flip := true;
          continue;
        } else if c == '-' {
          flip := false;
          continue;
        }
        var nickMode := IsNickMode(sv.prefix, c);
        if nickMode {
          if p >= |argv| {
            return;
          }
          calls := calls + [NickCall(argv[p], Change(flip, c))];
          p := p + 1;
          continue;
        }
        var slot := Locate(c);
        var modeType := RequiresParameter(sv.chanmodes, c);
        if flip {
          var parameter := None;
          if modeType != 0 && p < |argv| {
            parameter := Some(argv[p]);
            p := p + 1;
          }
          modes := if slot < |modes| then modes[slot := Slot(c, parameter)] else modes + [Slot(c, parameter)];
        } else {
          if slot < |modes| {
            modes := modes[slot := Slot(NUL, None)];
          }
          if modeType != 0 && modeType != 1 {
            p := p + 1;
          }
        }
      }
      assert text[i..] == [];
      ParseNothing(sv, modes, argv, flip, p);
    }

    // The 324 reply: the modes as they are now.
    method Reload(sv: Server, text: string, argv: seq<string>) returns (calls: seq<NickCall>)
      modifies this
      ensures Outcome(modes, calls) == Parse(sv, [], text, argv, true, 0)
    {
      ClearModes();
      calls := ParseModeChange(sv, text, argv);
    }

    method GetChannelModes(sv: Server) returns (text: string)
      ensures text == Text(sv, modes)
    {
      var size: nat := |modes| + 1024;
      LettersFit(sv, modes);
      text := WriteLetters(sv, modes, size);
      text := WriteParameters(sv, modes, text, size);
    }
  }

  // The two loops of GetChannelModes.
  method WriteLetters(sv: Server, slots: seq<Slot>, size: nat) returns (text: string)
    requires |slots| + 1 < size
    ensures text == "+" + Letters(sv, slots)
  {
    text := "+";
    var i: nat := 0;
    while i < |slots|
      invariant i <= |slots| && |text| <= i + 1
      invariant text + Letters(sv, slots[i..]) == "+" + Letters(sv, slots)
    {
      assert slots[i..][0] == slots[i] && slots[i..][1..] == slots[i + 1..];
      var modeType := RequiresParameter(sv.chanmodes, slots[i].mode);
      if slots[i].mode != NUL && modeType != 3 {
        text := Cat(text, [slots[i].mode], size);
      }
      i := i + 1;
    }
  }

  method WriteParameters(sv: Server, slots: seq<Slot>, start: string, initial: nat) returns (text: string)
    requires |start| < initial
    ensures text == Append(start, initial, Parameters(sv, slots))
  {
    hide Printed, Class, Cat, Grown;
    text := start;
    var size: nat := initial;
    var i: nat := 0;
    assert slots[0..] == slots;
    while i < |slots|
      invariant i <= |slots| && |text| < size
      invariant Append(text, size, Parameters(sv, slots[i..])) == Append(start, initial, Parameters(sv, slots))
    {
      ParametersFront(sv, slots[i..]);
      assert slots[i..][0] == slots[i] && slots[i..][1..] == slots[i + 1..];
      var modeType := RequiresParameter(sv.chanmodes, slots[i].mode);
      if slots[i].mode != NUL && slots[i].parameter.Some? && modeType != 3 {
        text, size := AppendOne(text, size, slots[i].parameter.value, Parameters(sv, slots[i + 1..]));
      }
      i := i + 1;
    }
  }

  lemma ParametersFront(sv: Server, slots: seq<Slot>)
    requires slots != []
    ensures Parameters(sv, slots)
         == if slots[0].mode != NUL && Type(sv, slots[0].mode) != 3 && slots[0].parameter.Some?
            then [slots[0].parameter.value] + Parameters(sv, slots[1..]) else Parameters(sv, slots[1..])
  {
  }

  method AppendOne(text: string, size: nat, parameter: string, ghost rest: seq<string>) returns (longer: string, grown: nat)
    requires |text| < size
    ensures |longer| < grown && Append(text, size, [parameter] + rest) == Append(longer, grown, rest)
  {
    var blank := Cat(text, " ", size);
    grown := Grown(|blank|, size, parameter);
    longer := Cat(blank, parameter, grown);
    assert ([parameter] + rest)[1..] == rest;
  }
}
