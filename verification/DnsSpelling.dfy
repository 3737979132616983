// Which names ares_mkquery takes, however they are spelled: any octet may stand behind a
// backslash, a period and a backslash have to, and the name may end in a period.
module DnsSpelling {
  import opened Basics
  import opened DnsName
  import opened DnsQuery
  import DnsRoundTrip

  datatype Octet = Octet(b: byte, escaped: bool)

  type Word = seq<Octet>

  predicate Spelled(w: Word) {
    forall k :: 0 <= k < |w| ==> w[k].escaped || (w[k].b != 46 && w[k].b != 92)
  }

  function Spell(w: Word): seq<byte> {
    if w == [] then [] else SpellOctet(w[0]) + Spell(w[1..])
  }

  // The label a word stands for.
  function Read(w: Word): Label {
    seq(|w|, k requires 0 <= k < |w| => w[k].b)
  }

  function Reads(words: seq<Word>): seq<Label> {
    seq(|words|, k requires 0 <= k < |words| => Read(words[k]))
  }

  // The words with a period between them.
  function SpellName(words: seq<Word>): seq<byte>
    requires words != []
  {
    if |words| == 1 then Spell(words[0]) else Spell(words[0]) + ([46] + SpellName(words[1..]))
  }

  predicate Fitting(words: seq<Word>) {
    forall k :: 0 <= k < |words| ==> 0 < |words[k]| <= 63
  }

  // The rest of the name from i on.
  predicate From(name: seq<byte>, i: nat, s: seq<byte>) {
    i <= |name| && name[i..] == s
  }

  // s stands at i.
  predicate Stands(name: seq<byte>, i: nat, s: seq<byte>) {
    i + |s| <= |name| && forall k :: 0 <= k < |s| ==> name[i + k] == s[k]
  }

  // A word up to a period or the end reads as its octets.
  lemma {:induction false} WordReads(name: seq<byte>, i: nat, w: Word, rest: seq<byte>)
    requires Spelled(w) && From(name, i, Spell(w) + rest) && i <= |name| && (rest == [] || rest[0] == 46)
    ensures Octets(name, i) == Read(w) && LabelEnd(name, i) == i + |Spell(w)| <= |name|
    ensures w != [] ==> i < |name| && name[i] != 46
    ensures From(name, i + |Spell(w)|, rest)
    decreases |w|
  {
    hide *;
    SpellFront(w, rest);
    if w == [] {
      OctetsStop(name, i, rest);
    } else {
      var front := SpellOctet(w[0]);
      Peel(name, i, front, Spell(w[1..]) + rest);
      OctetsStep(name, i, w[0]);
      WordReads(name, i + |front|, w[1..], rest);
      assert i + |Spell(w)| == i + |front| + |Spell(w[1..])|;
    }
    ReadFront(w);
  }

  function SpellOctet(o: Octet): seq<byte> {
    if o.escaped then [92, o.b] else [o.b]
  }

  lemma SpellFront(w: Word, rest: seq<byte>)
    ensures w == [] ==> Spell(w) == [] && Spell(w) + rest == rest
    ensures w != [] ==> Spell(w) + rest == SpellOctet(w[0]) + (Spell(w[1..]) + rest)
    ensures w != [] ==> |Spell(w)| == |SpellOctet(w[0])| + |Spell(w[1..])|
    ensures w != [] && Spelled(w) ==> Spelled(w[1..]) && (w[0].escaped || (w[0].b != 46 && w[0].b != 92))
  {
  }

  lemma ReadFront(w: Word)
    ensures Read(w) == if w == [] then [] else [w[0].b] + Read(w[1..])
  {
  }

  lemma Peel(name: seq<byte>, i: nat, a: seq<byte>, b: seq<byte>)
    requires From(name, i, a + b)
    ensures Stands(name, i, a) && From(name, i + |a|, b)
  {
    assert name[i + |a|..] == name[i..][|a|..];
    assert forall k :: 0 <= k < |a| ==> name[i + k] == name[i..][k];
  }

  lemma OctetsStop(name: seq<byte>, i: nat, rest: seq<byte>)
    requires i <= |name| && From(name, i, rest) && (rest == [] || rest[0] == 46)
    ensures Octets(name, i) == [] && LabelEnd(name, i) == i
  {
    if rest != [] {
      assert name[i] == name[i..][0];
    }
  }

  lemma OctetsStep(name: seq<byte>, i: nat, o: Octet)
    requires Stands(name, i, SpellOctet(o))
    requires o.escaped || (o.b != 46 && o.b != 92)
    ensures i < |name| && name[i] != 46
    ensures var j := i + |SpellOctet(o)|; Octets(name, i) == [o.b] + Octets(name, j) && LabelEnd(name, i) == LabelEnd(name, j)
  {
    var front := SpellOctet(o);
    assert name[i + 0] == front[0];
    if o.escaped {
      assert name[i + 1] == front[1];
    }
  }

  lemma {:induction false} WordsRead(name: seq<byte>, i: nat, words: seq<Word>, dot: bool)
    requires words != [] && words[|words| - 1] != [] && (forall k :: 0 <= k < |words| ==> Spelled(words[k]))
    requires i <= |name| && From(name, i, SpellName(words) + if dot then [46] else [])
    ensures LabelsFrom(name, i) == if Fitting(words) then Some(Reads(words)) else None
    decreases |words|
  {
    hide *;
    var end := if dot then [46] else [];
    var w, more := words[0], words[1..];
    var rest := if |words| == 1 then end else [46] + (SpellName(more) + end);
    SpellNameFront(words, end);
    SpellFront(w, rest);
    WordReads(name, i, w, rest);
    ReadSize(w);
    FittingFront(words);
    ReadsFront(words);
    var e := i + |Spell(w)|;
    if |words| == 1 {
      LastLabel(name, i, e, w, dot);
      FittingNothing();
    } else {
      Peel(name, e, [46], SpellName(more) + end);
      assert name[e + 0] == [46][0];
      WordsRead(name, e + 1, more, dot);
      InnerLabel(name, i, e, w);
    }
  }

  lemma SpellNameFront(words: seq<Word>, end: seq<byte>)
    requires words != []
    ensures SpellName(words) + end
         == Spell(words[0]) + if |words| == 1 then end else [46] + (SpellName(words[1..]) + end)
  {
  }

  lemma ReadsFront(words: seq<Word>)
    requires words != []
    ensures Reads(words) == [Read(words[0])] + Reads(words[1..])
    ensures |words| == 1 ==> Reads(words) == [Read(words[0])]
  {
  }

  lemma FittingNothing()
    ensures Fitting([])
  {
  }

  lemma LastLabel(name: seq<byte>, i: nat, e: nat, w: Word, dot: bool)
    requires i < |name| && name[i] != 46 && i <= e <= |name| && From(name, e, if dot then [46] else [])
    requires Octets(name, i) == Read(w) && LabelEnd(name, i) == e
    ensures LabelsFrom(name, i) == if |w| <= 63 then Some([Read(w)]) else None
  {
    hide Octets, LabelEnd, LabelsFrom;
    LabelsFromAt(name, i);
    LabelsFromEnd(name);
    assert [Read(w)] + [] == [Read(w)];
  }

  lemma InnerLabel(name: seq<byte>, i: nat, e: nat, w: Word)
    requires i <= e < |name| && name[e] == 46 && (if w == [] then e == i else name[i] != 46)
    requires Octets(name, i) == Read(w) && LabelEnd(name, i) == e
    ensures LabelsFrom(name, i) ==
      if 0 < |w| <= 63 && LabelsFrom(name, e + 1).Some? then Some([Read(w)] + LabelsFrom(name, e + 1).value) else None
  {
    hide Octets, LabelEnd, LabelsFrom;
    LabelsFromAt(name, i);
  }

  lemma ReadSize(w: Word)
    ensures |Read(w)| == |w|
  {
  }

  lemma FittingFront(words: seq<Word>)
    requires words != []
    ensures Fitting(words) <==> 0 < |words[0]| <= 63 && Fitting(words[1..])
  {
    assert forall k :: 0 <= k < |words[1..]| ==> words[1..][k] == words[k + 1];
  }

  // For every spelling, with and without a final period: the name stands for its words if
  // none is empty or longer than 63 octets, and is refused otherwise.
  lemma NameReads(words: seq<Word>, dot: bool)
    requires words != [] && words[|words| - 1] != [] && (forall k :: 0 <= k < |words| ==> Spelled(words[k]))
    ensures ParseName(SpellName(words) + if dot then [46] else []) == if Fitting(words) then Some(Reads(words)) else None
  {
    hide LabelsFrom, Fitting;
    var name := SpellName(words) + if dot then [46] else [];
    assert name[0..] == name;
    WordsRead(name, 0, words, dot);
    NotRoot(words, dot);
  }

  lemma NotRoot(words: seq<Word>, dot: bool)
    requires words != [] && words[|words| - 1] != [] && (forall k :: 0 <= k < |words| ==> Spelled(words[k]))
    ensures SpellName(words) != [] && SpellName(words) + (if dot then [46] else []) != [46]
  {
    if |words| > 1 {
      NotRoot(words[1..], dot);
      assert SpellName(words[1..]) != [];
    } else {
      assert Spell(words[0])[0] != 46;
    }
  }

  // The root by itself, and names that begin with a period.
  lemma RootReads(rest: seq<byte>)
    ensures ParseName([]) == Some([]) && ParseName([46]) == Some([])
    ensures rest != [] ==> ParseName([46] + rest) == None
  {
  }

  // ---- the spelling that expansion chooses -----------------------------------------------

  function Marked(l: Label): Word {
    seq(|l|, k requires 0 <= k < |l| => Octet(l[k], l[k] == 46 || l[k] == 92))
  }

  function AllMarked(ls: seq<Label>): seq<Word> {
    seq(|ls|, k requires 0 <= k < |ls| => Marked(ls[k]))
  }

  lemma {:induction false} EscapeIsSpelling(l: Label)
    ensures Escape(l) == Spell(Marked(l))
    decreases |l|
  {
    if l != [] {
      DnsRoundTrip.EscapeFront(l);
      EscapeIsSpelling(l[1..]);
      assert Marked(l)[1..] == Marked(l[1..]);
    }
  }

  // The text of a name spells its labels with a backslash before each period and each
  // backslash, and before nothing else.
  lemma {:induction false} TextIsSpelling(ls: seq<Label>)
    requires ls != []
    ensures Text(ls) == SpellName(AllMarked(ls))
    decreases |ls|
  {
    hide *;
    EscapeIsSpelling(ls[0]);
    DnsRoundTrip.TextFront(ls);
    DnsRoundTrip.TailText(ls[1..]);
    AllMarkedFront(ls);
    SpellNameIs(AllMarked(ls));
    if |ls| > 1 {
      TextIsSpelling(ls[1..]);
      DotIs();
    } else {
      Nothing(Escape(ls[0]));
    }
  }

  lemma DotIs()
    ensures DOT == 46
  {
  }

  lemma Nothing(a: seq<byte>)
    ensures a + [] == a
  {
  }

  lemma AllMarkedFront(ls: seq<Label>)
    requires ls != []
    ensures |AllMarked(ls)| == |ls| && AllMarked(ls)[0] == Marked(ls[0]) && AllMarked(ls)[1..] == AllMarked(ls[1..])
  {
  }

  lemma SpellNameIs(words: seq<Word>)
    requires words != []
    ensures SpellName(words) == if |words| == 1 then Spell(words[0]) else Spell(words[0]) + ([46] + SpellName(words[1..]))
  {
  }
}
