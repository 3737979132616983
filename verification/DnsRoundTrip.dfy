// The two halves of the name codec against each other: what ares_mkquery writes,
// ares_expand_name reads back.
module DnsRoundTrip {
  import opened Basics
  import opened DnsName
  import opened DnsQuery
  import DnsExpand

  predicate ValidLabel(l: Label) {
    0 < |l| <= MAXLABEL
  }

  predicate ValidLabels(ls: seq<Label>) {
    forall k :: 0 <= k < |ls| ==> ValidLabel(ls[k])
  }

  // A length byte below 0xC0 is no pointer, so the walk also takes labels that the encoder
  // would refuse.
  predicate Carried(ls: seq<Label>) {
    forall k :: 0 <= k < |ls| ==> 0 < |ls[k]| < 0xC0
  }

  lemma ValidIsCarried(ls: seq<Label>)
    requires ValidLabels(ls)
    ensures Carried(ls)
  {
    assert forall k :: 0 <= k < |ls| ==> ValidLabel(ls[k]);
  }

  // ---- the encoding is a name --------------------------------------------------

  // The bytes of w stand in msg at pos.
  predicate StandsAt(msg: seq<byte>, pos: nat, w: seq<byte>) {
    pos + |w| <= |msg| && forall k :: 0 <= k < |w| ==> w[k] == msg[pos + k]
  }

  lemma StandsParts(msg: seq<byte>, pos: nat, a: seq<byte>, b: seq<byte>)
    requires StandsAt(msg, pos, a + b)
    ensures pos + |a| + |b| <= |msg|
    ensures StandsAt(msg, pos, a) && StandsAt(msg, pos + |a|, b)
    ensures |a| > 0 ==> msg[pos] == a[0]
  {
    forall k | 0 <= k < |a| ensures a[k] == msg[pos + k] {
      assert (a + b)[k] == a[k];
    }
    forall k | 0 <= k < |b| ensures b[k] == msg[pos + |a| + k] {
      assert (a + b)[|a| + k] == b[k];
    }
  }

  // The first label of an encoding, as the walk meets it.
  lemma WireFront(msg: seq<byte>, pos: nat, ls: seq<Label>)
    requires ls != [] && Carried(ls) && StandsAt(msg, pos, Wire(ls))
    ensures var next := pos + 1 + |ls[0]|;
      && StandsAt(msg, next, Wire(ls[1..])) && Carried(ls[1..])
      && StepAt(msg, pos) == Emit(ls[0], next)
      && |Wire(ls)| == next - pos + |Wire(ls[1..])|
  {
    hide Wire, Body;
    var l, rest := ls[0], Wire(ls[1..]);
    WireSplits(ls);
    StandsParts(msg, pos, WireLabel(l), rest);
    LabelFront(msg, pos, l);
  }

  lemma WireSplits(ls: seq<Label>)
    requires ls != []
    ensures Wire(ls) == WireLabel(ls[0]) + Wire(ls[1..]) && |Wire(ls[1..])| > 0
  {
    hide WireLabel;
    var a, b := WireLabel(ls[0]), Body(ls[1..]);
    assert (a + b) + [0] == a + (b + [0]);
  }

  // The length byte and the label, as the walk reads them.
  lemma LabelFront(msg: seq<byte>, pos: nat, l: Label)
    requires 0 < |l| < 0xC0 && StandsAt(msg, pos, WireLabel(l))
    ensures |WireLabel(l)| == 1 + |l| && pos + 1 + |l| <= |msg| && msg[pos] == |l| && msg[pos + 1..pos + 1 + |l|] == l
  {
    assert |l| % 256 == |l|;
    StandsParts(msg, pos, [|l| as byte], l);
  }

  lemma {:induction false} WireIsName(msg: seq<byte>, pos: nat, ls: seq<Label>)
    requires Carried(ls) && StandsAt(msg, pos, Wire(ls))
    ensures EndsIn(msg, pos, |ls|) && LabelsIn(msg, pos, |ls|) == ls
    ensures WireLength(msg, pos) == |Wire(ls)|
    decreases |ls|
  {
    hide Wire, StandsAt, Carried;
    if ls == [] {
      WireNothing();
      assert Wire(ls) == [0] + [];
      StandsParts(msg, pos, [0], []);
    } else {
      WireFront(msg, pos, ls);
      WireIsName(msg, pos + 1 + |ls[0]|, ls[1..]);
      assert [ls[0]] + ls[1..] == ls;
    }
  }

  lemma ValidCons(l: Label, rest: seq<Label>)
    requires ValidLabel(l) && ValidLabels(rest)
    ensures ValidLabels([l] + rest)
  {
  }

  lemma {:induction false} ParsedLabelsValid(name: seq<byte>, i: nat)
    requires i <= |name| && LabelsFrom(name, i).Some?
    ensures ValidLabels(LabelsFrom(name, i).value)
    decreases |name| - i
  {
    if i < |name| {
      var l, e := Octets(name, i), LabelEnd(name, i);
      assert ValidLabel(l);
      hide Octets, LabelEnd, ValidLabel, ValidLabels;
      if e < |name| {
        ParsedLabelsValid(name, e + 1);
        ValidCons(l, LabelsFrom(name, e + 1).value);
      } else {
        ValidCons(l, LabelsFrom(name, e).value);
        assert [l] + [] == [l];
      }
    } else {
      assert LabelsFrom(name, i).value == [];
    }
  }

  // Whatever name ares_mkquery accepts, in any message that carries the question it
  // wrote, ares_expand_name finds at offset 12 the labels that went in, and the
  // encoded length it reports is that of the canonical encoding.
  lemma QueryExpands(name: seq<byte>, msg: seq<byte>)
    requires ParseName(name).Some? && StandsAt(msg, HFIXEDSZ, Wire(ParseName(name).value))
    ensures IsName(msg, HFIXEDSZ) && Labels(msg, HFIXEDSZ) == ParseName(name).value
    ensures WireLength(msg, HFIXEDSZ) == |Wire(ParseName(name).value)|
  {
    var ls := ParseName(name).value;
    if name != [DOT] {
      ParsedLabelsValid(name, 0);
    }
    ValidIsCarried(ls);
    WireIsName(msg, HFIXEDSZ, ls);
    StepsUnique(msg, HFIXEDSZ, |ls|, Steps(msg, HFIXEDSZ));
  }

  // ---- the text parses back ----------------------------------------------------

  lemma EscapeFront(l: seq<byte>)
    requires l != []
    ensures Escape(l) == EscapeByte(l[0]) + Escape(l[1..])
  {
    assert l == [l[0]] + l[1..];
    EscapeConcat([l[0]], l[1..]);
    assert [l[0]][..0] == [] && Escape([]) == [];
    assert Escape([l[0]]) == EscapeByte(l[0]);
  }

  // One escaped octet, read back.
  lemma OctetOfEscape(name: seq<byte>, i: nat, b: byte)
    requires StandsAt(name, i, EscapeByte(b))
    ensures var j := i + |EscapeByte(b)|;
      Octets(name, i) == [b] + Octets(name, j) && LabelEnd(name, i) == LabelEnd(name, j)
  {
    var step := EscapeByte(b);
    assert step[0] == name[i];
    assert |step| == 2 ==> step[1] == name[i + 1];
  }

  lemma OctetsStop(name: seq<byte>, i: nat)
    requires i <= |name|
    ensures Escape([]) == []
    ensures i == |name| || name[i] == DOT ==> Octets(name, i) == [] && LabelEnd(name, i) == i
  {
  }

  // An escaped label followed by a period or the end reads back as the label.
  lemma {:induction false} OctetsOfEscape(name: seq<byte>, i: nat, l: seq<byte>)
    requires i + |Escape(l)| <= |name| && StandsAt(name, i, Escape(l))
    requires i + |Escape(l)| < |name| ==> name[i + |Escape(l)|] == DOT
    ensures Octets(name, i) == l && LabelEnd(name, i) == i + |Escape(l)|
    decreases |l|
  {
    hide *;
    if l == [] {
      OctetsStop(name, i);
    } else {
      EscapeFront(l);
      var step, rest := EscapeByte(l[0]), Escape(l[1..]);
      StandsParts(name, i, step, rest);
      OctetOfEscape(name, i, l[0]);
      OctetsOfEscape(name, i + |step|, l[1..]);
      assert [l[0]] + l[1..] == l;
    }
  }

  // The rest of a text after its first label.
  function Tail(ls: seq<Label>): seq<byte> {
    if ls == [] then [] else [DOT] + Text(ls)
  }

  lemma TextFront(ls: seq<Label>)
    requires ls != []
    ensures Text(ls) == Escape(ls[0]) + Tail(ls[1..])
  {
    var l, rest := ls[0], ls[1..];
    assert ls == [l] + rest;
    assert Dotted([l]) == Segment(l) by { DottedSnoc([], l); assert Dotted([]) == [] && [] + [l] == [l]; }
    assert Dotted(ls) == Segment(l) + Dotted(rest) by { DottedConcat([l], rest); }
    assert Dotted(ls) == Text(ls) + [DOT] by { DottedIsTextAndPeriod(ls); }
    if rest == [] {
      assert Dotted(rest) == [];
      PeelPeriod(Text(ls), Escape(l), []);
    } else {
      assert Dotted(rest) == Text(rest) + [DOT] by { DottedIsTextAndPeriod(rest); }
      PeelPeriods(Text(ls), Escape(l), Text(rest));
    }
  }

  lemma PeelPeriod(t: seq<byte>, e: seq<byte>, none: seq<byte>)
    requires t + [DOT] == (e + [DOT]) + none && none == []
    ensures t == e + none
  {
    assert t == (t + [DOT])[..|t|];
    assert e == (e + [DOT])[..|e|];
  }

  lemma PeelPeriods(t: seq<byte>, e: seq<byte>, r: seq<byte>)
    requires t + [DOT] == (e + [DOT]) + (r + [DOT])
    ensures t == e + ([DOT] + r)
  {
    assert t == (t + [DOT])[..|t|];
    assert (e + [DOT]) + (r + [DOT]) == (e + ([DOT] + r)) + [DOT];
    assert e + ([DOT] + r) == ((e + ([DOT] + r)) + [DOT])[..|t|];
  }

  lemma TailText(ls: seq<Label>)
    ensures Tail(ls) == if ls == [] then [] else [DOT] + Text(ls)
  {
  }

  lemma ValidFront(ls: seq<Label>)
    requires ls != [] && ValidLabels(ls)
    ensures ValidLabel(ls[0]) && 0 < |ls[0]| <= MAXLABEL && ValidLabels(ls[1..])
  {
  }

  lemma EscapedNotDot(b: byte)
    ensures |EscapeByte(b)| > 0 && EscapeByte(b)[0] != DOT
  {
  }

  // Where the first label of a text stops.
  lemma TextFirst(name: seq<byte>, i: nat, ls: seq<Label>)
    requires ls != [] && ValidLabels(ls) && i + |Text(ls)| == |name| && StandsAt(name, i, Text(ls))
    ensures Octets(name, i) == ls[0] && |ls[0]| <= MAXLABEL && i < |name| && name[i] != DOT
    ensures LabelEnd(name, i) == |name| - |Tail(ls[1..])|
    ensures |ls| > 1 ==> StandsAt(name, LabelEnd(name, i) + 1, Text(ls[1..]))
  {
    hide *;
    var l, rest := ls[0], ls[1..];
    ValidFront(ls);
    TailText(rest);
    TextFront(ls);
    EscapeFront(l);
    EscapedNotDot(l[0]);
    StandsParts(name, i, Escape(l), Tail(rest));
    StandsParts(name, i, EscapeByte(l[0]), Escape(l[1..]));
    if |ls| > 1 {
      StandsParts(name, i + |Escape(l)|, [DOT], Text(rest));
    }
    OctetsOfEscape(name, i, l);
  }

  lemma LabelsFromStep(name: seq<byte>, i: nat, rest: seq<Label>)
    requires i < |name| && name[i] != DOT && |Octets(name, i)| <= MAXLABEL
    requires LabelEnd(name, i) == |name| || LabelsFrom(name, LabelEnd(name, i) + 1) == Some(rest)
    ensures LabelsFrom(name, i) ==
      Some(if LabelEnd(name, i) == |name| then [Octets(name, i)] else [Octets(name, i)] + rest)
  {
  }

  lemma {:induction false} LabelsOfText(name: seq<byte>, i: nat, ls: seq<Label>)
    requires ls != [] && ValidLabels(ls) && i + |Text(ls)| == |name| && StandsAt(name, i, Text(ls))
    ensures LabelsFrom(name, i) == Some(ls)
    decreases |ls|
  {
    hide *;
    var rest := ls[1..];
    ValidFront(ls);
    TailText(rest);
    TextFirst(name, i, ls);
    if rest == [] {
      assert [ls[0]] == ls;
      LabelsFromStep(name, i, []);
    } else {
      LabelsOfText(name, LabelEnd(name, i) + 1, rest);
      LabelsFromStep(name, i, rest);
      assert [ls[0]] + rest == ls;
    }
  }

  // ---- which texts end in an escaped period --------------------------------------

  // Whether a byte is escaped depends on the bytes before it alone.
  lemma {:induction false} EscapedAgree(a: seq<byte>, b: seq<byte>, i: nat)
    requires i < |a| && i < |b| && forall k :: 0 <= k < i ==> a[k] == b[k]
    ensures Escaped(a, i) == Escaped(b, i)
    decreases i
  {
    if i > 0 {
      EscapedAgree(a, b, i - 1);
    }
  }

  // A byte appended to a closed text would not be the second half of an escape.
  predicate Closed(text: seq<byte>) {
    !Escaped(text + [DOT], |text|)
  }

  lemma ClosedByte(t: seq<byte>, b: byte)
    requires Closed(t)
    ensures Closed(t + EscapeByte(b))
    ensures EndsInEscapedPeriod(t + EscapeByte(b)) <==> b == DOT
  {
    var u := t + EscapeByte(b);
    var v := u + [DOT];
    EscapedAgree(t + [DOT], v, |t|);
    if NeedsEscape(b) {
      assert v[|t|] == BACKSLASH && v[|t| + 1] == b;
      assert !Escaped(v, |t|) && Escaped(v, |t| + 1) && !Escaped(v, |t| + 2);
      EscapedAgree(v, u, |t| + 1);
    } else {
      assert v[|t|] == b;
    }
  }

  lemma {:induction false} ClosedEscape(t: seq<byte>, l: seq<byte>)
    requires Closed(t)
    ensures Closed(t + Escape(l))
    ensures l != [] ==> (EndsInEscapedPeriod(t + Escape(l)) <==> l[|l| - 1] == DOT)
  {
    if l == [] {
      assert t + Escape(l) == t;
    } else {
      var init, b := l[..|l| - 1], l[|l| - 1];
      assert t + Escape(l) == (t + Escape(init)) + EscapeByte(b);
      hide Escape, EscapeByte, Closed, EndsInEscapedPeriod;
      ClosedEscape(t, init);
      ClosedByte(t + Escape(init), b);
    }
  }

  lemma ClosedPeriod(t: seq<byte>)
    requires Closed(t)
    ensures Closed(t + [DOT])
  {
    assert (t + [DOT] + [DOT])[|t|] == DOT;
  }

  lemma {:induction false} ClosedText(ls: seq<Label>)
    requires ValidLabels(ls)
    ensures Closed(Text(ls))
    ensures ls != [] ==>
      var l := ls[|ls| - 1];
      l != [] && (EndsInEscapedPeriod(Text(ls)) <==> l[|l| - 1] == DOT)
  {
    assert Closed([]);
    if ls != [] {
      var init, l := ls[..|ls| - 1], ls[|ls| - 1];
      assert ValidLabel(l) && ValidLabels(init) && l != [];
      assert ls == init + [l];
      TextSnoc(init, l);
      hide Text, Closed, EndsInEscapedPeriod, ValidLabels, Escape;
      if init == [] {
        ClosedEscape([], l);
        assert [] + Escape(l) == Escape(l);
      } else {
        ClosedText(init);
        ClosedPeriod(Text(init));
        ClosedEscape(Text(init) + [DOT], l);
      }
    }
  }

  // ---- the round trip --------------------------------------------------------------

  lemma TextParses(ls: seq<Label>)
    requires ValidLabels(ls)
    ensures ParseName(Text(ls)) == Some(ls)
  {
    if ls != [] {
      assert StandsAt(Text(ls), 0, Text(ls));
      TextFirst(Text(ls), 0, ls);
      LabelsOfText(Text(ls), 0, ls);
    }
  }

  lemma NameAgainstWire(ls: seq<Label>)
    requires ValidLabels(ls)
    ensures ParseName(Text(ls)) == Some(ls)
    ensures QnameCount(Text(ls)) <= MAXCDNAME <==>
      |Wire(ls)| <= if EndsInEscapedPeriod(Text(ls)) then MAXCDNAME + 1 else MAXCDNAME
  {
    TextParses(ls);
    CountAgainstWire(Text(ls));
    if ls != [] {
      assert StandsAt(Text(ls), 0, Text(ls));
      TextFirst(Text(ls), 0, ls);
    }
  }

  // For every list of labels ares_mkquery can carry: their text is accepted exactly
  // when the encoding has at most 255 bytes, and expanding what was written at offset
  // 12 gives the text back, the encoded length being that of the encoding. The buffer
  // is overrun exactly when the last label ends in a period; then, and only then, the
  // counting pass also lets one encoding of 256 bytes through.
  lemma CodecRoundTrip(ls: seq<Label>, msg: seq<byte>)
    requires ValidLabels(ls)
    requires StandsAt(msg, HFIXEDSZ, Wire(ls))
    ensures ParseName(Text(ls)) == Some(ls)
    ensures EndsInEscapedPeriod(Text(ls)) <==>
      ls != [] && ls[|ls| - 1] != [] && ls[|ls| - 1][|ls[|ls| - 1]| - 1] == DOT
    ensures QnameCount(Text(ls)) <= MAXCDNAME <==>
      |Wire(ls)| <= if EndsInEscapedPeriod(Text(ls)) then MAXCDNAME + 1 else MAXCDNAME
    ensures IsName(msg, HFIXEDSZ) && Text(Labels(msg, HFIXEDSZ)) == Text(ls)
    ensures WireLength(msg, HFIXEDSZ) == |Wire(ls)|
  {
    NameAgainstWire(ls);
    QueryExpands(Text(ls), msg);
    ClosedText(ls);
  }

  // Expanding and encoding again changes nothing: the text ares_expand_name returns
  // for an accepted name is accepted too and stands for the same labels.
  lemma TextIsNormalForm(name: seq<byte>)
    requires ParseName(name).Some?
    ensures ParseName(Text(ParseName(name).value)) == ParseName(name)
    ensures ValidLabels(ParseName(name).value)
  {
    if name != [DOT] {
      ParsedLabelsValid(name, 0);
    }
    TextParses(ParseName(name).value);
  }

  // The limits of RFC 1035, section 2.3.4, on every question that is written whole.
  lemma QueryWithinLimits(name: seq<byte>)
    requires QnameCount(name) <= MAXCDNAME && ParseName(name).Some?
    ensures forall k :: 0 <= k < |ParseName(name).value| ==> 0 < |ParseName(name).value[k]| <= 63
    ensures |Wire(ParseName(name).value)| <= 255 + if EndsInEscapedPeriod(name) then 1 else 0
  {
    CountAgainstWire(name);
    TextIsNormalForm(name);
    assert forall k :: 0 <= k < |ParseName(name).value| ==> ValidLabel(ParseName(name).value[k]);
  }

  lemma QueryCarriesWire(name: seq<byte>, dnsclass: int, qtype: int, id: int, rd: bool, buf: seq<byte>)
    requires ParseName(name).Some?
    requires var bytes := Query(name, dnsclass, qtype, id, rd);
      bytes[..|bytes| - 1] <= buf
    ensures StandsAt(buf, HFIXEDSZ, Wire(ParseName(name).value))
  {
    var bytes, w := Query(name, dnsclass, qtype, id, rd), Wire(ParseName(name).value);
    forall k | 0 <= k < |w| ensures w[k] == buf[HFIXEDSZ + k] {
      assert bytes[HFIXEDSZ + k] == w[k];
    }
  }

  // The two C functions in sequence.
  method EncodeThenExpand(ls: seq<Label>, dnsclass: int, qtype: int, id: int, rd: bool)
      returns (sent: bool, text: seq<byte>, enclen: int)
    requires ValidLabels(ls)
    ensures sent <==> |Wire(ls)| <= if EndsInEscapedPeriod(Text(ls)) then 256 else 255
    ensures sent ==> text == Text(ls) + [0] && enclen == |Wire(ls)|
  {
    var name := Text(ls);
    NameAgainstWire(ls);
    var status, buf, overrun := MkQuery(name, dnsclass, qtype, id, rd);
    sent, text, enclen := false, [], 0;
    if status == Success {
      QueryCarriesWire(name, dnsclass, qtype, id, rd, buf[..]);
      CodecRoundTrip(ls, buf[..]);
      QueryExpands(name, buf[..]);
      var expanded, s;
      expanded, s, enclen := DnsExpand.ExpandName(buf[..], HFIXEDSZ);
      sent, text := true, s[..];
    }
  }
}
