// GetChannelModes and ParseModeChange of src/Channel.cpp as printer and reader.
module ChannelRoundTrip {
  import opened Basics
  import opened ISupport
  import opened Tokens
  import opened Words
  import opened Channels
  import opened ChannelModes
  import opened ChannelText

  // ---- Reading it back -------------------------------------------------------------------

  // Modes and parameters as words have them.
  predicate Worded(slots: seq<Slot>) {
    forall i :: 0 <= i < |slots|
            ==> slots[i].mode != ' ' && (slots[i].parameter.Some? ==> Word(slots[i].parameter.value))
  }

  // Mode changes made of words leave words in the slots.
  lemma {:induction false} ParseKeepsWorded(
      sv: Server, slots: seq<Slot>, text: string, argv: seq<string>, flip: bool, p: nat)
    requires Worded(slots) && !Has(text, ' ') && AllWords(argv)
    ensures Worded(Parse(sv, slots, text, argv, flip, p).slots)
    decreases |text|
  {
    hide Class, NickMode, Word;
    if text != [] {
      var c, rest := text[0], text[1..];
      assert c != ' ' && !Has(rest, ' ');
      if c == '+' || c == '-' {
        ParseKeepsWorded(sv, slots, rest, argv, c == '+', p);
      } else if NickMode(sv, c) {
        if p < |argv| {
          ParseKeepsWorded(sv, slots, rest, argv, flip, p + 1);
        }
      } else {
        ParseKeepsWorded(sv, if flip then Put(slots, Slot(c, Argument(sv, c, argv, p))) else Drop(slots, c),
                            rest, argv, flip, p + Taken(sv, c, flip, |argv|, p));
      }
    }
  }

  lemma {:induction false} PrintedWords(sv: Server, slots: seq<Slot>)
    requires Worded(slots)
    ensures !Has(Letters(sv, slots), ' ') && !Has(Letters(sv, slots), NUL) && AllWords(Parameters(sv, slots))
  {
    if slots != [] {
      assert forall i :: 0 <= i < |slots[1..]| ==> slots[1..][i] == slots[i + 1];
      PrintedWords(sv, slots[1..]);
    }
  }

  // The slots printed.
  function Kept(sv: Server, slots: seq<Slot>): seq<Slot> {
    if slots == [] then [] else (if Printed(sv, slots[0]) then [slots[0]] else []) + Kept(sv, slots[1..])
  }

  // The same modes with the parameters handed out anew, one to each that asks for one.
  function Filled(sv: Server, slots: seq<Slot>, argv: seq<string>, p: nat): seq<Slot> {
    if slots == [] then []
    else if !Printed(sv, slots[0]) then Filled(sv, slots[1..], argv, p)
    else
      var c := slots[0].mode;
      [Slot(c, Argument(sv, c, argv, p))] + Filled(sv, slots[1..], argv, p + Taken(sv, c, true, |argv|, p))
  }

  // No mode that lacks its parameter stands before one that has it.
  predicate Aligned(sv: Server, slots: seq<Slot>) {
    forall i, j :: 0 <= i < j < |slots| && Lacking(sv, slots[i]) && Printed(sv, slots[j]) ==> slots[j].parameter.None?
  }

  predicate Lacking(sv: Server, slot: Slot) {
    Printed(sv, slot) && Type(sv, slot.mode) != 0 && slot.parameter.None?
  }

  predicate Fresh(acc: seq<Slot>, slots: seq<Slot>) {
    forall i, j :: 0 <= i < |acc| && 0 <= j < |slots| && slots[j].mode != NUL ==> acc[i].mode != slots[j].mode
  }

  lemma FreshLater(acc: seq<Slot>, slots: seq<Slot>, added: Slot)
    requires Unique(slots) && Fresh(acc, slots) && slots != [] && added.mode == slots[0].mode != NUL
    ensures FindSlot(acc, added.mode) == |acc| && Fresh(acc + [added], slots[1..])
  {
    assert forall i :: 0 <= i < |slots[1..]| ==> slots[1..][i] == slots[i + 1];
  }

  lemma {:induction false} Replay(sv: Server, acc: seq<Slot>, slots: seq<Slot>, argv: seq<string>, p: nat)
    requires Sound(sv, slots) && Fresh(acc, slots)
    ensures Parse(sv, acc, Letters(sv, slots), argv, true, p).slots == acc + Filled(sv, slots, argv, p)
    decreases |slots|
  {
    hide Class, NickMode, Find;
    if slots != [] {
      var slot, rest := slots[0], slots[1..];
      assert forall i :: 0 <= i < |rest| ==> rest[i] == slots[i + 1];
      if !Printed(sv, slot) {
        assert Letters(sv, slots) == Letters(sv, rest);
        Replay(sv, acc, rest, argv, p);
      } else {
        assert Letters(sv, slots)[0] == slot.mode && Letters(sv, slots)[1..] == Letters(sv, rest);
        assert Proper(sv, slots[0]);
        var added := Slot(slot.mode, Argument(sv, slot.mode, argv, p));
        FreshLater(acc, slots, added);
        Replay(sv, acc + [added], rest, argv, p + Taken(sv, slot.mode, true, |argv|, p));
        assert acc + [added] + Filled(sv, rest, argv, p + Taken(sv, slot.mode, true, |argv|, p))
            == acc + Filled(sv, slots, argv, p);
      }
    }
  }

  lemma {:induction false} NoneLeft(sv: Server, slots: seq<Slot>)
    ensures Parameters(sv, slots) == []
       <==> forall j :: 0 <= j < |slots| && Printed(sv, slots[j]) ==> slots[j].parameter.None?
  {
    if slots != [] {
      NoneLeft(sv, slots[1..]);
      assert forall i :: 0 <= i < |slots[1..]| ==> slots[1..][i] == slots[i + 1];
    }
  }

  lemma AlignedFront(sv: Server, slots: seq<Slot>)
    requires slots != []
    ensures Aligned(sv, slots)
       <==> Aligned(sv, slots[1..]) && (Lacking(sv, slots[0]) ==> Parameters(sv, slots[1..]) == [])
  {
    hide Printed, Lacking, Parameters;
    NoneLeft(sv, slots[1..]);
    assert forall i :: 0 <= i < |slots[1..]| ==> slots[1..][i] == slots[i + 1];
    if Aligned(sv, slots[1..]) && (Lacking(sv, slots[0]) ==> Parameters(sv, slots[1..]) == []) {
      forall i, j | 0 <= i < j < |slots| && Lacking(sv, slots[i]) && Printed(sv, slots[j])
        ensures slots[j].parameter.None?
      {
        assert slots[1..][j - 1] == slots[j];
        if i > 0 {
          assert slots[1..][i - 1] == slots[i];
        }
      }
    }
    if Aligned(sv, slots) {
      forall i, j | 0 <= i < j < |slots[1..]| && Lacking(sv, slots[1..][i]) && Printed(sv, slots[1..][j])
        ensures slots[1..][j].parameter.None?
      {
        assert slots[i + 1] == slots[1..][i] && slots[j + 1] == slots[1..][j];
      }
    }
  }

  // With no more arguments than parameters were printed, the slots get back what they had
  // exactly when the arguments are the parameters and no lacking mode is in the way.
  lemma {:induction false} FilledIsKept(sv: Server, slots: seq<Slot>, argv: seq<string>, p: nat)
    requires Sound(sv, slots) && p <= |argv| && |argv| - p <= |Parameters(sv, slots)|
    ensures Filled(sv, slots, argv, p) == Kept(sv, slots) <==> Aligned(sv, slots) && argv[p..] == Parameters(sv, slots)
    decreases |slots|
  {
    hide Class, NickMode, Find, Aligned;
    if slots == [] {
      AlignedNothing(sv);
    } else {
      var slot, rest := slots[0], slots[1..];
      var q := p + Taken(sv, slot.mode, true, |argv|, p);
      AlignedFront(sv, slots);
      SoundRest(sv, slots);
      ParametersFront(sv, slots);
      if !Printed(sv, slot) {
        FilledIsKept(sv, rest, argv, p);
      } else {
        var filled := Slot(slot.mode, Argument(sv, slot.mode, argv, p));
        FrontEqual(filled, Filled(sv, rest, argv, q), slot, Kept(sv, rest));
        if slot.parameter.Some? {
          if p < |argv| {
            FilledIsKept(sv, rest, argv, q);
            assert argv[p..] == [argv[p]] + argv[q..];
          } else {
            assert argv[p..] == [];
          }
        } else if p < |argv| && Type(sv, slot.mode) != 0 {
          assert argv[p..] != [];
        } else {
          FilledIsKept(sv, rest, argv, q);
        }
      }
    }
  }

  lemma AlignedNothing(sv: Server)
    ensures Aligned(sv, [])
  {
  }

  lemma SoundRest(sv: Server, slots: seq<Slot>)
    requires Sound(sv, slots) && slots != []
    ensures Sound(sv, slots[1..]) && Proper(sv, slots[0])
  {
    assert forall i :: 0 <= i < |slots[1..]| ==> slots[1..][i] == slots[i + 1];
  }

  lemma FrontEqual(a: Slot, s: seq<Slot>, b: Slot, t: seq<Slot>)
    ensures [a] + s == [b] + t <==> a == b && s == t
  {
    assert ([a] + s)[0] == a && ([a] + s)[1..] == s;
    assert ([b] + t)[0] == b && ([b] + t)[1..] == t;
  }

  // ---- As settings -------------------------------------------------------------------------

  // The modes that are no lists.
  ghost function NoLists(sv: Server, m: Settings): Settings {
    map c | c in m && Type(sv, c) != 3 :: m[c]
  }

  function Lookup(slots: seq<Slot>, c: char): Option<Option<string>> {
    if slots == [] then None else if slots[0].mode == c then Some(slots[0].parameter) else Lookup(slots[1..], c)
  }

  lemma {:induction false} LookupIsView(slots: seq<Slot>, c: char)
    requires c != NUL
    ensures c in View(slots) <==> Lookup(slots, c).Some?
    ensures c in View(slots) ==> View(slots)[c] == Lookup(slots, c).value
  {
    LookupFinds(slots, c);
    LiveIsFound(slots, c);
  }

  lemma {:induction false} LookupFinds(slots: seq<Slot>, c: char)
    ensures Lookup(slots, c)
         == if FindSlot(slots, c) < |slots| then Some(slots[FindSlot(slots, c)].parameter) else None
  {
    if slots != [] {
      LookupFinds(slots[1..], c);
    }
  }

  lemma {:induction false} KeptLookup(sv: Server, slots: seq<Slot>, c: char)
    requires c != NUL
    ensures Lookup(Kept(sv, slots), c) == if Type(sv, c) == 3 then None else Lookup(slots, c)
  {
    if slots != [] {
      KeptLookup(sv, slots[1..], c);
      if Printed(sv, slots[0]) {
        assert Kept(sv, slots)[0] == slots[0] && Kept(sv, slots)[1..] == Kept(sv, slots[1..]);
      } else {
        assert Kept(sv, slots) == Kept(sv, slots[1..]);
      }
    }
  }

  lemma KeptIsPlain(sv: Server, slots: seq<Slot>)
    ensures View(Kept(sv, slots)) == NoLists(sv, View(slots))
  {
    hide View, Kept, Class;
    NoNul(slots);
    NoNul(Kept(sv, slots));
    forall c | c != NUL
      ensures c in View(Kept(sv, slots)) <==> c in NoLists(sv, View(slots))
      ensures c in View(Kept(sv, slots)) ==> View(Kept(sv, slots))[c] == NoLists(sv, View(slots))[c]
    {
      KeptLookup(sv, slots, c);
      LookupIsView(slots, c);
      LookupIsView(Kept(sv, slots), c);
    }
  }

  lemma {:induction false} SameModes(sv: Server, slots: seq<Slot>, argv: seq<string>, p: nat)
    ensures |Filled(sv, slots, argv, p)| == |Kept(sv, slots)|
    ensures forall k :: 0 <= k < |Kept(sv, slots)|
              ==> Filled(sv, slots, argv, p)[k].mode == Kept(sv, slots)[k].mode != NUL
    decreases |slots|
  {
    hide Class;
    if slots != [] {
      var slot, rest := slots[0], slots[1..];
      var q := if Printed(sv, slot) then p + Taken(sv, slot.mode, true, |argv|, p) else p;
      SameModes(sv, rest, argv, q);
    }
  }

  lemma DifferenceShows(s: seq<Slot>, t: seq<Slot>)
    requires |s| == |t| && forall k :: 0 <= k < |s| ==> s[k].mode == t[k].mode != NUL
    requires Unique(s)
    ensures View(s) == View(t) ==> s == t
  {
    hide View;
    if View(s) == View(t) {
      forall k | 0 <= k < |s|
        ensures s[k] == t[k]
      {
        ViewAt(s, s[k].mode, k);
        ViewAt(t, s[k].mode, k);
      }
    }
  }

  // ---- The reply ---------------------------------------------------------------------------

  // The four words before the modes in a 324 reply, with room for the plus sign after them.
  predicate Reply(head: seq<string>) {
    |head| == 4 && Heading(head) && Room(head) + 1 < SIZE
  }

  // The 324 branch, on a channel without modes.
  function ReadBack(sv: Server, line: string): seq<Slot> {
    var argv := Args(line);
    if |argv| > 4 then Parse(sv, [], argv[4], argv[5..], true, 0).slots else []
  }

  function Line324(sv: Server, slots: seq<Slot>, head: seq<string>): string
    requires head != []
  {
    Spaced(head) + " " + Text(sv, slots)
  }

  function ModesWord(sv: Server, slots: seq<Slot>): string {
    "+" + Letters(sv, slots)
  }

  // The words of the reply, as they should come back.
  function ReplyWords(sv: Server, slots: seq<Slot>, head: seq<string>): seq<string> {
    head + ([ModesWord(sv, slots)] + Parameters(sv, slots))
  }

  lemma {:induction false} SpacedJoined(first: string, rest: seq<string>)
    ensures Spaced([first] + rest) == first + Joined(rest)
    decreases |rest|
  {
    JoinedFront(rest);
    if rest == [] {
      assert first + [] == first;
    } else {
      SpacedJoined(rest[0], rest[1..]);
      assert ([first] + rest)[1..] == rest == [rest[0]] + rest[1..];
      assert first + " " + (rest[0] + Joined(rest[1..])) == first + Joined(rest);
    }
  }

  lemma {:induction false} SpacedConcat(a: seq<string>, b: seq<string>)
    requires a != [] && b != []
    ensures Spaced(a + b) == Spaced(a) + " " + Spaced(b)
  {
    if |a| == 1 {
      assert (a + b)[1..] == b;
    } else {
      assert (a + b)[1..] == a[1..] + b && (a + b)[0] == a[0];
      SpacedConcat(a[1..], b);
    }
  }

  // Whatever the buffer of the printer cut off, the tokenizer does not get to see.
  lemma LineReads(sv: Server, slots: seq<Slot>, head: seq<string>)
    requires head != []
    ensures Args(Line324(sv, slots, head)) == Args(Spaced(ReplyWords(sv, slots, head)))
  {
    hide Args, Spaced, Append, Joined, Letters, Parameters;
    var pre, w, ps := Spaced(head) + " ", ModesWord(sv, slots), Parameters(sv, slots);
    LettersFit(sv, slots);
    SpacedConcat(head, [w] + ps);
    SpacedJoined(w, ps);
    AppendBegins(w, |slots| + 1024, ps);
    var a, b := Text(sv, slots), w + Joined(ps);
    assert Line324(sv, slots, head) == pre + a && Spaced(ReplyWords(sv, slots, head)) == pre + b;
    if a != b {
      FrontsAgree(pre, a, b);
      ArgsAgree(pre + a, pre + b);
    }
  }

  lemma FrontsAgree(pre: string, a: string, b: string)
    requires |a| >= 1023 && |b| >= 1023 && a[..1023] == b[..1023]
    ensures (pre + a)[..SIZE] == (pre + b)[..SIZE]
  {
    assert forall i :: 0 <= i < 1023 ==> a[i] == a[..1023][i] == b[i];
  }

  lemma Restart(sv: Server, slots: seq<Slot>, argv: seq<string>)
    requires Sound(sv, slots)
    ensures Parse(sv, [], "+" + Letters(sv, slots), argv, true, 0).slots == Filled(sv, slots, argv, 0)
    ensures Unique(Filled(sv, slots, argv, 0))
  {
    hide Class, NickMode, Printed;
    var text := "+" + Letters(sv, slots);
    assert text[0] == '+' && text[1..] == Letters(sv, slots);
    Replay(sv, [], slots, argv, 0);
    NulFree(sv, slots);
    ParseRefines(sv, [], Letters(sv, slots), argv, true, 0);
  }

  lemma {:induction false} NulFree(sv: Server, slots: seq<Slot>)
    ensures !Has(Letters(sv, slots), NUL)
  {
    if slots != [] {
      NulFree(sv, slots[1..]);
    }
  }

  // Settings with a parameter exactly where one is needed always come back.
  lemma ExactIsAligned(sv: Server, slots: seq<Slot>)
    requires Sound(sv, slots) && Exact(sv, NoLists(sv, View(slots)))
    ensures Aligned(sv, slots)
  {
    hide Class, View;
    forall i | 0 <= i < |slots| && Printed(sv, slots[i])
      ensures !Lacking(sv, slots[i])
    {
      ViewAt(slots, slots[i].mode, i);
      assert slots[i].mode in NoLists(sv, View(slots));
    }
  }

  // The modes word came back: the rest decides.
  lemma ModesWordBack(sv: Server, slots: seq<Slot>, argv: seq<string>)
    requires Sound(sv, slots) && |argv| <= |Parameters(sv, slots)|
    ensures View(Parse(sv, [], ModesWord(sv, slots), argv, true, 0).slots) == NoLists(sv, View(slots))
       <==> Aligned(sv, slots) && argv == Parameters(sv, slots)
  {
    hide Parse, View, Aligned, Filled, Kept, Letters, Parameters, Sound, NoLists, Unique;
    Restart(sv, slots, argv);
    KeptIsPlain(sv, slots);
    SameModes(sv, slots, argv, 0);
    DifferenceShows(Filled(sv, slots, argv, 0), Kept(sv, slots));
    assert argv[0..] == argv;
    FilledIsKept(sv, slots, argv, 0);
  }

  // ---- The modes word did not come back ------------------------------------------------

  // Every mode a run leaves was there before or is in its text.
  lemma {:induction false} ModesFromText(sv: Server, m: Settings, text: string, argv: seq<string>, flip: bool, p: nat, c: char)
    requires c !in m && !Has(text, c)
    ensures c !in Interpret(sv, m, text, argv, flip, p)
    decreases |text|
  {
    hide Class, NickMode;
    if text != [] {
      var d, rest := text[0], text[1..];
      assert d != c && !Has(rest, c);
      if d == '+' || d == '-' {
        ModesFromText(sv, m, rest, argv, d == '+', p, c);
      } else if NickMode(sv, d) {
        if p < |argv| {
          ModesFromText(sv, m, rest, argv, flip, p + 1, c);
        }
      } else {
        ModesFromText(sv, if flip then m[d := Argument(sv, d, argv, p)] else m - {d},
                      rest, argv, flip, p + Taken(sv, d, flip, |argv|, p), c);
      }
    }
  }

  // A mode that is set and not about nicks stays, when nothing is taken away.
  lemma {:induction false} SetModeStays(sv: Server, m: Settings, text: string, argv: seq<string>, p: nat, c: char)
    requires c in m || Has(text, c)
    requires c != '+' && forall i :: 0 <= i < |text| ==> text[i] == '+' || (text[i] != '-' && !NickMode(sv, text[i]))
    ensures c in Interpret(sv, m, text, argv, true, p)
    decreases |text|
  {
    hide Class, NickMode;
    if text != [] {
      var d, rest := text[0], text[1..];
      assert forall i :: 0 <= i < |rest| ==> rest[i] == text[i + 1];
      if d == '+' {
        SetModeStays(sv, m, rest, argv, p, c);
      } else {
        SetModeStays(sv, m[d := Argument(sv, d, argv, p)], rest, argv, p + Taken(sv, d, true, |argv|, p), c);
      }
    }
  }

  lemma {:induction false} LettersAreKept(sv: Server, slots: seq<Slot>)
    requires Sound(sv, slots)
    ensures |Letters(sv, slots)| == |Kept(sv, slots)|
    ensures forall k :: 0 <= k < |Kept(sv, slots)| ==>
              var c := Letters(sv, slots)[k]; c == Kept(sv, slots)[k].mode && c != NUL && c != '+' && c != '-' && !NickMode(sv, c)
  {
    hide NickMode, Class;
    if slots != [] {
      SoundRest(sv, slots);
      LettersAreKept(sv, slots[1..]);
    }
  }

  lemma ModesWordFacts(sv: Server, slots: seq<Slot>)
    requires Sound(sv, slots) && Worded(slots) && !Has(sv.prefix, ' ')
    ensures !Has(ModesWord(sv, slots), NUL) && Word(ModesWord(sv, slots)) && Plain(ModesWord(sv, slots))
    ensures var w := ModesWord(sv, slots);
            w != [] && w[0] == '+' && (forall i :: 1 <= i < |w| ==> w[i] != '+' && w[i] != '-' && !NickMode(sv, w[i]))
    ensures !NickMode(sv, ' ')
  {
    hide Class, Kept, Letters;
    LettersAreKept(sv, slots);
    PrintedWords(sv, slots);
    var w := ModesWord(sv, slots);
    assert forall i :: 1 <= i < |w| ==> w[i] == Letters(sv, slots)[i - 1];
  }

  // With spaces after it the modes word sets a mode that is a space.
  lemma SpacesSpoil(sv: Server, slots: seq<Slot>, text: string, argv: seq<string>)
    requires Sound(sv, slots) && Worded(slots) && !Has(sv.prefix, ' ')
    requires ModesWord(sv, slots) < text && forall j :: |ModesWord(sv, slots)| <= j < |text| ==> text[j] == ' '
    ensures View(Parse(sv, [], text, argv, true, 0).slots) != NoLists(sv, View(slots))
  {
    hide Class, NickMode, Letters, Interpret, Parse, View, Has, Sound;
    var w := ModesWord(sv, slots);
    ModesWordFacts(sv, slots);
    SpacedText(sv, w, text);
    Interpreted(sv, text, argv);
    SetModeStays(sv, map[], text, argv, 0, ' ');
    NoSpaceMode(slots);
  }

  lemma SpacedText(sv: Server, w: string, text: string)
    requires w < text && !Has(w, NUL) && w != [] && w[0] == '+' && !NickMode(sv, ' ')
    requires forall i :: 1 <= i < |w| ==> w[i] != '-' && !NickMode(sv, w[i])
    requires forall j :: |w| <= j < |text| ==> text[j] == ' '
    ensures !Has(text, NUL) && Has(text, ' ') && text[0] == '+'
    ensures forall i :: 1 <= i < |text| ==> text[i] != '-' && !NickMode(sv, text[i])
  {
    hide NickMode;
    assert text[|w|] == ' ';
    assert forall i :: 0 <= i < |w| ==> text[i] == w[i];
  }

  lemma Interpreted(sv: Server, text: string, argv: seq<string>)
    requires !Has(text, NUL)
    ensures View(Parse(sv, [], text, argv, true, 0).slots) == Interpret(sv, map[], text, argv, true, 0)
  {
    hide Parse, Interpret;
    ParseRefines(sv, [], text, argv, true, 0);
    assert View([]) == map[];
  }

  lemma NoSpaceMode(slots: seq<Slot>)
    requires Worded(slots)
    ensures ' ' !in View(slots)
  {
    hide Word;
  }

  // Cut short, it leaves a mode out.
  lemma CutSpoils(sv: Server, slots: seq<Slot>, text: string, argv: seq<string>)
    requires Sound(sv, slots) && Worded(slots) && !Has(sv.prefix, ' ')
    requires text != [] && text < ModesWord(sv, slots)
    ensures View(Parse(sv, [], text, argv, true, 0).slots) != NoLists(sv, View(slots))
  {
    hide Class, NickMode, Letters, Interpret, Parse, View, Has, Sound, Kept, Unique;
    var w, k := ModesWord(sv, slots), |text| - 1;
    ModesWordFacts(sv, slots);
    LettersAreKept(sv, slots);
    var c := Letters(sv, slots)[k];
    KeptUnique(sv, slots);
    LetterMissing(sv, slots, text, k);
    Interpreted(sv, text, argv);
    ModesFromText(sv, map[], text, argv, true, 0, c);
    KeptIsPlain(sv, slots);
    ViewAt(Kept(sv, slots), c, k);
  }

  lemma KeptUnique(sv: Server, slots: seq<Slot>)
    requires Sound(sv, slots)
    ensures Unique(Kept(sv, slots))
  {
    hide Kept, Filled, Sound;
    Restart(sv, slots, []);
    SameModes(sv, slots, [], 0);
  }

  lemma LetterMissing(sv: Server, slots: seq<Slot>, text: string, k: nat)
    requires Sound(sv, slots) && text < ModesWord(sv, slots) && |text| == k + 1
    requires !Has(ModesWord(sv, slots), NUL) && ModesWord(sv, slots)[0] == '+'
    ensures k < |Letters(sv, slots)| && !Has(text, NUL) && !Has(text, Letters(sv, slots)[k])
  {
    hide Class, NickMode, Letters, Kept, Sound;
    LettersAreKept(sv, slots);
    KeptUnique(sv, slots);
    var w := ModesWord(sv, slots);
    assert forall i :: 0 <= i < |text| ==> text[i] == w[i];
    assert forall i :: 1 <= i < |text| ==> text[i] == Letters(sv, slots)[i - 1];
  }

  // ---- The round trip ------------------------------------------------------------------

  // Printing the modes, sending them as a 324 reply and reading that back into a channel
  // without modes restores every mode that is no list exactly when
  // - no mode that lacks its parameter stands before one that has it, and
  // - the reply has at most 511 bytes and at most 32 words, and no parameter is empty or,
  //   unless it is the 32nd word, begins with a colon.
  lemma ModesRoundTrip(sv: Server, slots: seq<Slot>, head: seq<string>)
    requires Sound(sv, slots) && Worded(slots) && !Has(sv.prefix, ' ') && Reply(head)
    ensures var ws := ReplyWords(sv, slots, head);
            View(ReadBack(sv, Line324(sv, slots, head))) == NoLists(sv, View(slots))
            <==> Aligned(sv, slots) && |Spaced(ws)| <= 511 && Readable(ws, 0)
  {
    hide Sound, Worded, Heading, Room, Letters, Parameters, Parse, View, NoLists, Aligned, Readable, Args, Spaced, Has;
    hide AllWords, Line324, ModesWord;
    var w, ps := ModesWord(sv, slots), Parameters(sv, slots);
    var ws := ReplyWords(sv, slots, head);
    var a := Args(Spaced(ws));
    LineReads(sv, slots, head);
    ModesWordFacts(sv, slots);
    RestWords(sv, slots);
    HeadingWords(head, [w] + ps);
    ArgBehind(Spaced(ws), head, [w] + ps);
    LastTells(ws);
    WordsAreArgs(ws);
    if a[4] == w {
      ModesWordBack(sv, slots, a[5..]);
      if a[5..] == ps {
        assert a[4..] == [w] + ps;
        assert a[|ws| - 1] == a[4..][|ps|];
      }
    } else {
      assert ws[4] == w;
      if |a[4]| > |w| {
        SpacesSpoil(sv, slots, a[4], a[5..]);
      } else {
        CutSpoils(sv, slots, a[4], a[5..]);
      }
    }
  }

  lemma RestWords(sv: Server, slots: seq<Slot>)
    requires Worded(slots) && Word(ModesWord(sv, slots))
    ensures AllWords([ModesWord(sv, slots)] + Parameters(sv, slots))
  {
    hide Parameters, Word;
    PrintedWords(sv, slots);
  }

  // Two mode lines after which a mode that lacks its parameter stands before one that has it:
  // a key without a key, and later a limit.
  lemma MisalignedChannel(sv: Server)
    requires !NickMode(sv, 'k') && !NickMode(sv, 'l') && Type(sv, 'k') == 2 && Type(sv, 'l') == 1
    ensures var first := Parse(sv, [], "+k", [], true, 0).slots;
            var slots := Parse(sv, first, "+l", ["5"], true, 0).slots;
            slots == [Slot('k', None), Slot('l', Some("5"))] && !Aligned(sv, slots)
  {
    hide NickMode, Class;
    var a, b := "+k", "+l";
    assert a[1..] == ['k'] && b[1..] == ['l'];
    SetOne(sv, [], 'k', []);
    SetOne(sv, [Slot('k', None)], 'l', ["5"]);
    var slots := [Slot('k', None), Slot('l', Some("5"))];
    assert Lacking(sv, slots[0]) && Printed(sv, slots[1]);
  }

  lemma SetOne(sv: Server, slots: seq<Slot>, c: char, argv: seq<string>)
    requires !NickMode(sv, c) && c != '+' && c != '-'
    ensures Parse(sv, slots, ['+', c], argv, true, 0).slots == Put(slots, Slot(c, Argument(sv, c, argv, 0)))
  {
    hide Parse, NickMode, Class;
    assert ['+', c][1..] == [c] && [c][1..] == [];
    ParseFront(sv, slots, ['+', c], argv, true, 0);
    ParseFront(sv, slots, [c], argv, true, 0);
    ParseNothing(sv, Put(slots, Slot(c, Argument(sv, c, argv, 0))), argv, true, Taken(sv, c, true, |argv|, 0));
  }

  // With the usual server values it is one.
  lemma UsualServer()
    ensures var sv := Server("(ov)@+", "b,k,l,imnpst");
            !NickMode(sv, 'k') && !NickMode(sv, 'l') && Type(sv, 'k') == 2 && Type(sv, 'l') == 1
  {
    hide Find, Has, Class;
    NoNickMode("(ov)@+", 'k');
    NoNickMode("(ov)@+", 'l');
    UsualClasses('k');
    UsualClasses('l');
  }

  lemma NoNickMode(prefix: string, c: char)
    requires prefix == "(ov)@+" && c != 'o' && c != 'v' && c != '(' && c != '@' && c != '+'
    ensures Find(prefix, c) >= Find(prefix, ')')
  {
    assert prefix == ['(', 'o', 'v', ')', '@', '+'];
    FindIs(prefix, ')', 3);
  }

  lemma UsualClasses(c: char)
    requires c == 'k' || c == 'l'
    ensures Class("b,k,l,imnpst", c) == if c == 'k' then 2 else 1
  {
    hide Find, Class;
    HasOne('b', c);
    HasOne('b', ',');
    HasOne('k', c);
    HasOne('k', ',');
    HasOne('l', c);
    HasOne('l', ',');
    ClassMeans(['b'], ['k'], ['l'], "imnpst", c);
    assert ['b'] + "," + (['k'] + "," + (['l'] + "," + "imnpst")) == "b,k,l,imnpst";
  }

  lemma HasOne(x: char, c: char)
    ensures Has([x], c) <==> x == c
  {
  }
}
