// What compressed names and questions are, byte by byte: sections 4.1.1, 4.1.2 and 4.1.4 of
// RFC 1035 against the decoder and the encoder.
module DnsCompressed {
  import opened Basics
  import opened DnsName
  import opened DnsExpand
  import opened DnsQuery
  import opened DnsRoundTrip

  // ---- names -------------------------------------------------------------------------

  // A name is a zero byte, or a pointer of two bytes to a name, or a label and a name behind it.
  lemma NameUnfolds(msg: seq<byte>, pos: nat)
    ensures IsName(msg, pos) <==>
      pos < |msg| &&
      if msg[pos] == 0 then true
      else if msg[pos] >= 0xC0 then pos + 1 < |msg| && IsName(msg, (msg[pos] as int - 0xC0) * 256 + msg[pos + 1] as int)
      else IsName(msg, pos + 1 + msg[pos] as int)
  {
    if pos < |msg| {
      NameStepsOn(msg, pos);
    }
  }

  // Where the walk goes from a byte that is not zero.
  function Onward(msg: seq<byte>, pos: nat): int
    requires pos < |msg| && (msg[pos] >= 0xC0 ==> pos + 1 < |msg|)
  {
    if msg[pos] >= 0xC0 then (msg[pos] as int - 0xC0) * 256 + msg[pos + 1] as int else pos + 1 + msg[pos] as int
  }

  lemma NameStepsOn(msg: seq<byte>, pos: nat)
    requires pos < |msg|
    ensures IsName(msg, pos) <==>
      msg[pos] == 0 || ((msg[pos] >= 0xC0 ==> pos + 1 < |msg|) && IsName(msg, Onward(msg, pos)))
  {
    if msg[pos] == 0 {
      assert EndsIn(msg, pos, 0);
    } else {
      if IsName(msg, pos) {
        var n := Steps(msg, pos);
        assert EndsIn(msg, Onward(msg, pos), n - 1);
      }
      if (msg[pos] >= 0xC0 ==> pos + 1 < |msg|) && IsName(msg, Onward(msg, pos)) {
        assert EndsIn(msg, pos, Steps(msg, Onward(msg, pos)) + 1);
      }
    }
  }

  // And its labels, and the bytes it takes where it stands.
  lemma LabelsUnfold(msg: seq<byte>, pos: nat)
    requires IsName(msg, pos)
    ensures msg[pos] == 0 ==> Labels(msg, pos) == [] && WireLength(msg, pos) == 1
    ensures msg[pos] >= 0xC0 ==>
      var to := (msg[pos] as int - 0xC0) * 256 + msg[pos + 1] as int;
      IsName(msg, to) && Labels(msg, pos) == Labels(msg, to) && WireLength(msg, pos) == 2
    ensures 0 < msg[pos] < 0xC0 ==>
      var to := pos + 1 + msg[pos] as int;
      IsName(msg, to) && Labels(msg, pos) == [msg[pos + 1..to]] + Labels(msg, to)
      && WireLength(msg, pos) == 1 + msg[pos] as int + WireLength(msg, to)
  {
    NameUnfolds(msg, pos);
    var n := Steps(msg, pos);
    if msg[pos] != 0 {
      var to := if msg[pos] >= 0xC0 then (msg[pos] as int - 0xC0) * 256 + msg[pos + 1] as int else pos + 1 + msg[pos] as int;
      StepsUnique(msg, to, n - 1, Steps(msg, to));
    }
  }

  // The labels pre followed by a pointer to t.
  predicate Compressed(msg: seq<byte>, pos: nat, pre: seq<Label>, t: nat)
    requires t < 0x4000
  {
    StandsAt(msg, pos, Body(pre) + [(0xC0 + t / 256) as byte, (t % 256) as byte])
  }

  // For all labels of fewer than 192 bytes and every target: where labels and a pointer stand
  // and the encoding of further labels stands at the target, the name is all these labels.
  lemma {:induction false} CompressedWalk(msg: seq<byte>, pos: nat, pre: seq<Label>, t: nat, ls: seq<Label>)
    requires Carried(pre) && Carried(ls) && t < 0x4000
    requires Compressed(msg, pos, pre, t) && StandsAt(msg, t, Wire(ls)) && t < |msg|
    ensures EndsIn(msg, pos, |pre| + 1 + |ls|) && LabelsIn(msg, pos, |pre| + 1 + |ls|) == pre + ls
    ensures WireLength(msg, pos) == |Body(pre)| + 2
    decreases |pre|
  {
    hide *;
    if pre == [] {
      BodyFront(pre);
      assert pre + ls == ls && [] + ls == ls;
      PointerOnly(msg, pos, t);
      WireIsName(msg, t, ls);
      StepBack(msg, pos, t, [], |ls|);
    } else {
      var l, rest, next := pre[0], pre[1..], pos + 1 + |pre[0]|;
      CompressedFront(msg, pos, pre, t);
      CompressedWalk(msg, next, rest, t, ls);
      StepBack(msg, pos, next, [l], |rest| + 1 + |ls|);
      assert [l] + (rest + ls) == pre + ls;
    }
  }

  lemma PointerOnly(msg: seq<byte>, pos: nat, t: nat)
    requires t < 0x4000 && t < |msg| && Compressed(msg, pos, [], t)
    ensures StepsTo(msg, pos, [], t) && WireLength(msg, pos) == 2
  {
    hide StandsAt;
    var pointer: seq<byte> := [(0xC0 + t / 256) as byte, (t % 256) as byte];
    assert Body([]) + pointer == pointer;
    PointerAt(msg, pos, t);
  }

  lemma CompressedFront(msg: seq<byte>, pos: nat, pre: seq<Label>, t: nat)
    requires Carried(pre) && pre != [] && t < 0x4000 && Compressed(msg, pos, pre, t)
    ensures var next := pos + 1 + |pre[0]|;
      && Carried(pre[1..]) && Compressed(msg, next, pre[1..], t)
      && |Body(pre)| == next - pos + |Body(pre[1..])|
      && StepsTo(msg, pos, [pre[0]], next) && WireLength(msg, pos) == next - pos + WireLength(msg, next)
  {
    hide Body, StandsAt;
    var l, rest, next := pre[0], pre[1..], pos + 1 + |pre[0]|;
    var pointer: seq<byte> := [(0xC0 + t / 256) as byte, (t % 256) as byte];
    BodyFront(pre);
    BytesRegroup(WireLabel(l), Body(rest), pointer);
    StandsParts(msg, pos, WireLabel(l), Body(rest) + pointer);
    LabelFront(msg, pos, l);
    Inside(msg, next, Body(rest) + pointer);
  }

  lemma Inside(msg: seq<byte>, pos: nat, w: seq<byte>)
    requires StandsAt(msg, pos, w) && |w| > 0
    ensures pos < |msg|
  {
  }

  lemma PointerAt(msg: seq<byte>, pos: nat, t: nat)
    requires t < 0x4000 && t < |msg| && StandsAt(msg, pos, [(0xC0 + t / 256) as byte, (t % 256) as byte])
    ensures pos + 1 < |msg| && StepAt(msg, pos) == Hop(t)
  {
    var w: seq<byte> := [(0xC0 + t / 256) as byte, (t % 256) as byte];
    assert w[0] == msg[pos + 0] && w[1] == msg[pos + 1];
    assert t == t / 256 * 256 + t % 256;
  }

  lemma CompressedName(msg: seq<byte>, pos: nat, pre: seq<Label>, t: nat, ls: seq<Label>)
    requires Carried(pre) && Carried(ls) && t < 0x4000
    requires Compressed(msg, pos, pre, t) && StandsAt(msg, t, Wire(ls))
    ensures IsName(msg, pos) && Labels(msg, pos) == pre + ls && WireLength(msg, pos) == |Body(pre)| + 2
  {
    assert |Wire(ls)| > 0;
    CompressedWalk(msg, pos, pre, t, ls);
    StepsUnique(msg, pos, |pre| + 1 + |ls|, Steps(msg, pos));
  }

  // What ares_expand_name returns for it.
  method ExpandCompressed(msg: seq<byte>, pos: nat, ghost pre: seq<Label>, ghost t: nat, ghost ls: seq<Label>)
      returns (text: seq<byte>, enclen: int)
    requires Carried(pre) && Carried(ls) && t < 0x4000
    requires Compressed(msg, pos, pre, t) && StandsAt(msg, t, Wire(ls))
    ensures text == Text(pre + ls) + [0]
    ensures enclen == if pre + ls == [] then 1 else |Body(pre)| + 2
  {
    CompressedName(msg, pos, pre, t, ls);
    NameUnfolds(msg, pos);
    hide *;
    var status, s, n := ExpandName(msg, pos);
    text, enclen := s[..], n;
  }

  // ---- questions -----------------------------------------------------------------------

  // DNS__16BIT, as a reader of the message has it.
  function Get16(q: seq<byte>, i: nat): int
    requires i + 1 < |q|
  {
    q[i] as int * 256 + q[i + 1] as int
  }

  // A reader finds in the query the identifier, the recursion flag as the only flag, one
  // question, no records, the encoding of the name, and then its type and its class.
  lemma QueryReadsBack(name: seq<byte>, dnsclass: int, qtype: int, id: int, rd: bool)
    requires ParseName(name).Some?
    ensures var (q, w) := (Query(name, dnsclass, qtype, id, rd), Wire(ParseName(name).value));
      && |q| == 12 + |w| + 4 && q[12..12 + |w|] == w
      && Get16(q, 0) == id % 65536 && q[2] == (if rd then 1 else 0) && q[3] == 0
      && Get16(q, 4) == 1 && Get16(q, 6) == 0 && Get16(q, 8) == 0 && Get16(q, 10) == 0
      && Get16(q, 12 + |w|) == qtype % 65536 && Get16(q, 14 + |w|) == dnsclass % 65536
  {
    hide Wire, ParseName;
    var q, w := Query(name, dnsclass, qtype, id, rd), Wire(ParseName(name).value);
    var h, e := Header(id, rd), Question(qtype, dnsclass);
    assert q == h + w + e;
    assert forall i :: 0 <= i < 12 ==> q[i] == h[i];
    assert forall i :: 0 <= i < 4 ==> q[12 + |w| + i] == e[i];
    BothHalves(id);
    BothHalves(qtype);
    BothHalves(dnsclass);
  }

  lemma BothHalves(v: int)
    ensures High(v) as int * 256 + Low(v) as int == v % 65536
  {
  }
}
