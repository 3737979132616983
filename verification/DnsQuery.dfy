// ares_mkquery.c: the counting pass and the writing pass for the question name.
module DnsQuery {
  import opened Basics
  import opened DnsName

  const MAXCDNAME: nat := 255
  const HFIXEDSZ: nat := 12
  const QFIXEDSZ: nat := 4

  datatype Status = Success | BadName

  // ---- what a dotted name means -----------------------------------------------

  // A backslash with a byte after it stands for that byte.
  predicate IsEscape(name: seq<byte>, i: nat)
    requires i < |name|
  {
    name[i] == BACKSLASH && i + 1 < |name|
  }

  // The octets of the label that starts at i, up to a period or the end.
  function Octets(name: seq<byte>, i: nat): (l: seq<byte>)
    requires i <= |name|
    decreases |name| - i
  {
    if i == |name| || name[i] == DOT then []
    else if IsEscape(name, i) then [name[i + 1]] + Octets(name, i + 2)
    else [name[i]] + Octets(name, i + 1)
  }

  // Where that label stops.
  function LabelEnd(name: seq<byte>, i: nat): (e: nat)
    requires i <= |name|
    ensures i <= e <= |name| && (e < |name| ==> name[e] == DOT)
    decreases |name| - i
  {
    if i == |name| || name[i] == DOT then i
    else if IsEscape(name, i) then LabelEnd(name, i + 2)
    else LabelEnd(name, i + 1)
  }

  function LabelsFrom(name: seq<byte>, i: nat): Option<seq<Label>>
    requires i <= |name|
    decreases |name| - i
  {
    if i == |name| then Some([])
    else if name[i] == DOT || |Octets(name, i)| > MAXLABEL then None
    else
      var e := LabelEnd(name, i);
      if e == |name| then Some([Octets(name, i)])
      else
        match LabelsFrom(name, e + 1)
        case None => None
        case Some(rest) => Some([Octets(name, i)] + rest)
  }

  // The labels of a name: "." is the root; otherwise no label may be empty or
  // longer than 63 octets, and one final period is allowed.
  function ParseName(name: seq<byte>): Option<seq<Label>> {
    if name == [DOT] then Some([]) else LabelsFrom(name, 0)
  }

  // The encoding: every label behind its length byte, then the zero byte.
  function Wire(ls: seq<Label>): seq<byte> {
    Body(ls) + [0]
  }

  function Body(ls: seq<Label>): seq<byte> {
    if ls == [] then [] else WireLabel(ls[0]) + Body(ls[1..])
  }

  // The length byte is the label's length cast to unsigned char.
  function WireLabel(l: Label): seq<byte> {
    [(|l| % 256) as byte] + l
  }

  // ---- the counting pass -------------------------------------------------------

  // One for each octet or period from i on.
  function Units(name: seq<byte>, i: nat): nat
    requires i <= |name|
    decreases |name| - i
  {
    if i == |name| then 0
    else if IsEscape(name, i) then 1 + Units(name, i + 2)
    else 1 + Units(name, i + 1)
  }

  function QnameCount(name: seq<byte>): nat {
    1 + Units(name, 0) + if name != [] && name[|name| - 1] != DOT then 1 else 0
  }

  // The byte at i is the second half of an escape: an odd number of backslashes
  // stands right before it.
  predicate Escaped(name: seq<byte>, i: nat)
    requires i < |name|
  {
    i > 0 && name[i - 1] == BACKSLASH && !Escaped(name, i - 1)
  }

  predicate EndsInEscapedPeriod(name: seq<byte>) {
    name != [] && name[|name| - 1] == DOT && Escaped(name, |name| - 1)
  }

  // Stepping over units never lands on the second half of an escape.
  predicate AtUnit(name: seq<byte>, i: nat) {
    i <= |name| && (i < |name| ==> !Escaped(name, i))
  }

  lemma {:induction false} UnitsSplit(name: seq<byte>, i: nat)
    requires AtUnit(name, i)
    ensures var e := LabelEnd(name, i);
      AtUnit(name, e) && Units(name, i) == |Octets(name, i)| + Units(name, e)
    decreases |name| - i
  {
    if i == |name| || name[i] == DOT {
    } else if IsEscape(name, i) {
      UnitsSplit(name, i + 2);
    } else {
      UnitsSplit(name, i + 1);
    }
  }

  // A label that runs to the end of the name does not stop at a bare period, so the
  // last byte of the name is a period only if it was escaped.
  lemma {:induction false} LastLabelEnd(name: seq<byte>, i: nat)
    requires AtUnit(name, i) && i < |name| && name[i] != DOT && LabelEnd(name, i) == |name|
    ensures name[|name| - 1] == DOT <==> EndsInEscapedPeriod(name)
    decreases |name| - i
  {
    var next := if IsEscape(name, i) then i + 2 else i + 1;
    assert AtUnit(name, next);
    if next < |name| {
      LastLabelEnd(name, next);
    }
  }

  lemma WireCons(l: Label, rest: seq<Label>)
    ensures |Wire([l] + rest)| == 1 + |l| + |Wire(rest)|
  {
    assert ([l] + rest)[1..] == rest;
  }

  lemma WireNothing()
    ensures Wire([]) == [0]
  {
  }

  lemma LabelsFromAt(name: seq<byte>, i: nat)
    requires i < |name|
    ensures LabelsFrom(name, i) ==
      if name[i] == DOT || |Octets(name, i)| > MAXLABEL then None
      else if LabelEnd(name, i) == |name| then Some([Octets(name, i)])
      else if LabelsFrom(name, LabelEnd(name, i) + 1) == None then None
      else Some([Octets(name, i)] + LabelsFrom(name, LabelEnd(name, i) + 1).value)
  {
  }

  lemma LabelsFromEnd(name: seq<byte>)
    ensures LabelsFrom(name, |name|) == Some([])
  {
  }

  lemma UnitsEnd(name: seq<byte>)
    ensures Units(name, |name|) == 0
  {
  }

  // Written bytes against counted bytes, from any label boundary on.
  lemma {:induction false} CountIsWire(name: seq<byte>, i: nat)
    requires AtUnit(name, i) && i < |name| && LabelsFrom(name, i).Some?
    ensures var counted := 1 + Units(name, i) + if name[|name| - 1] != DOT then 1 else 0;
      |Wire(LabelsFrom(name, i).value)| == counted + if EndsInEscapedPeriod(name) then 1 else 0
    decreases |name| - i
  {
    hide Wire, Body, Octets, LabelEnd, Units, LabelsFrom;
    var e, l := LabelEnd(name, i), Octets(name, i);
    WireNothing();
    LabelsFromAt(name, i);
    LabelsFromEnd(name);
    UnitsSplit(name, i);
    AfterPeriod(name, e);
    UnitsEnd(name);
    if e == |name| {
      LastLabelEnd(name, i);
      WireCons(l, []);
      assert [l] + [] == [l];
    } else {
      WireCons(l, LabelsFrom(name, e + 1).value);
      if e + 1 == |name| {
        assert !Escaped(name, e);
      } else {
        CountIsWire(name, e + 1);
      }
    }
  }

  // The counting pass reserves exactly the bytes the writing pass needs, but for
  // two families: one byte too many for ".", one too few for a name that ends in
  // an escaped period.
  lemma CountAgainstWire(name: seq<byte>)
    requires ParseName(name).Some?
    ensures |Wire(ParseName(name).value)| ==
      if name == [DOT] then QnameCount(name) - 1
      else if EndsInEscapedPeriod(name) then QnameCount(name) + 1
      else QnameCount(name)
  {
    if name != [DOT] && name != [] {
      CountIsWire(name, 0);
    }
    assert name == [DOT] ==> Units(name, 0) == 1 + Units(name, 1);
  }

  lemma {:induction false} BodySnoc(ls: seq<Label>, l: Label)
    ensures Body(ls + [l]) == Body(ls) + WireLabel(l)
  {
    hide *;
    BodyFront(ls + [l]);
    BodyFront(ls);
    SnocFront(ls, l);
    if ls == [] {
      BytesNothing(WireLabel(l));
    } else {
      BodySnoc(ls[1..], l);
      BytesRegroup(WireLabel(ls[0]), Body(ls[1..]), WireLabel(l));
    }
  }

  lemma SnocFront(ls: seq<Label>, l: Label)
    ensures ls == [] ==> (ls + [l])[1..] == [] && (ls + [l])[0] == l
    ensures ls != [] ==> (ls + [l])[1..] == ls[1..] + [l] && (ls + [l])[0] == ls[0]
  {
  }

  lemma BytesNothing(a: seq<byte>)
    ensures a + [] == [] + a == a
  {
  }

  lemma BytesRegroup(a: seq<byte>, b: seq<byte>, c: seq<byte>)
    ensures a + (b + c) == a + b + c
  {
  }

  lemma BodyFront(ls: seq<Label>)
    ensures Body(ls) == if ls == [] then [] else WireLabel(ls[0]) + Body(ls[1..])
  {
  }

  // ---- ares_mkquery --------------------------------------------------------------

  function Header(id: int, rd: bool): (h: seq<byte>)
    ensures |h| == HFIXEDSZ
  {
    [High(id), Low(id), if rd then 1 else 0, 0, 0, 1, 0, 0, 0, 0, 0, 0]
  }

  function High(v: int): byte { v / 256 % 256 }

  function Low(v: int): byte { v % 256 }

  function Question(qtype: int, dnsclass: int): seq<byte> {
    [High(qtype), Low(qtype), High(dnsclass), Low(dnsclass)]
  }

  method CountName(name: seq<byte>) returns (len: nat)
    ensures len == QnameCount(name)
  {
    len := 1;
    var p := 0;
    while p < |name|
      invariant p <= |name|
      invariant len + Units(name, p) == 1 + Units(name, 0)
    {
      p := if IsEscape(name, p) then p + 2 else p + 1;
      len := len + 1;
    }
    if name != [] && name[|name| - 1] != DOT {
      len := len + 1;
    }
  }

  method CountOctets(name: seq<byte>, i: nat) returns (len: nat)
    requires i <= |name|
    ensures len == |Octets(name, i)|
  {
    len := 0;
    var p := i;
    while p < |name| && name[p] != DOT
      invariant i <= p <= |name|
      invariant len + |Octets(name, p)| == |Octets(name, i)|
    {
      p := if IsEscape(name, p) then p + 2 else p + 1;
      len := len + 1;
    }
  }

  method CopyOctets(name: seq<byte>, i: nat, buf: array<byte>, start: nat) returns (p: nat, q: nat)
    requires i <= |name| && start + |Octets(name, i)| <= buf.Length
    modifies buf
    ensures p == LabelEnd(name, i) && q == start + |Octets(name, i)|
    ensures buf[..q] == old(buf[..start]) + Octets(name, i)
  {
    ghost var pre := buf[..start];
    p, q := i, start;
    while p < |name| && name[p] != DOT
      invariant i <= p <= |name| && LabelEnd(name, p) == LabelEnd(name, i)
      invariant start <= q && q + |Octets(name, p)| == start + |Octets(name, i)|
      invariant buf[..q] + Octets(name, p) == pre + Octets(name, i)
    {
      ghost var b := if IsEscape(name, p) then name[p + 1] else name[p];
      ghost var before := buf[..q];
      if IsEscape(name, p) {
        p := p + 1;
      }
      buf[q] := name[p];
      p, q := p + 1, q + 1;
      assert buf[..q] == before + [b];
      assert before + ([b] + Octets(name, p)) == buf[..q] + Octets(name, p);
    }
    assert buf[..q] + [] == buf[..q];
  }

  // The state of the writing loop at a label boundary: the labels done are in the
  // buffer, and as many bytes were written as units were read.
  ghost predicate Writing(name: seq<byte>, i: nat, done: seq<Label>) {
    && AtUnit(name, i)
    && Units(name, 0) == |Body(done)| + Units(name, i)
    && match LabelsFrom(name, i)
       case None => LabelsFrom(name, 0) == None
       case Some(rest) => LabelsFrom(name, 0) == Some(done + rest)
  }

  lemma WritingStart(name: seq<byte>)
    ensures Writing(name, 0, []) && Body([]) == []
  {
    if LabelsFrom(name, 0).Some? {
      assert [] + LabelsFrom(name, 0).value == LabelsFrom(name, 0).value;
    }
  }

  lemma WritingEnd(name: seq<byte>, i: nat, done: seq<Label>)
    requires Writing(name, i, done) && i == |name|
    ensures LabelsFrom(name, 0) == Some(done)
  {
    assert done + [] == done;
  }

  lemma WireLabelSize(l: Label)
    ensures |WireLabel(l)| == 1 + |l|
  {
  }

  // A label that does not run to the end stops at a period, which is a unit of its own.
  lemma AfterPeriod(name: seq<byte>, e: nat)
    requires e <= |name| && AtUnit(name, e) && (e < |name| ==> name[e] == DOT)
    ensures e < |name| ==> AtUnit(name, e + 1) && Units(name, e) == 1 + Units(name, e + 1)
  {
  }

  // One label further; or the name turns out malformed, or ends with this label.
  lemma WritingStep(name: seq<byte>, i: nat, done: seq<Label>)
    requires Writing(name, i, done) && i < |name|
    ensures var l, e := Octets(name, i), LabelEnd(name, i);
      && |Body(done)| + |l| + (if e < |name| then 1 else 0) <= Units(name, 0)
      && |Body(done + [l])| == |Body(done)| + 1 + |l|
      && Body(done + [l]) == Body(done) + WireLabel(l)
      && if name[i] == DOT || |l| > MAXLABEL then LabelsFrom(name, 0) == None
         else if e == |name| then LabelsFrom(name, 0) == Some(done + [l])
         else Writing(name, e + 1, done + [l])
  {
    hide Octets, LabelEnd, Units, Body, AtUnit;
    var l, e := Octets(name, i), LabelEnd(name, i);
    UnitsSplit(name, i);
    BodySnoc(done, l);
    WireLabelSize(l);
    AfterPeriod(name, e);
    if e < |name| && LabelsFrom(name, e + 1).Some? {
      var rest := LabelsFrom(name, e + 1).value;
      assert done + ([l] + rest) == (done + [l]) + rest;
    }
  }

  // One turn of the writing loop: the label at i behind its length byte, unless the
  // label is empty or too long.
  method WriteTurn(name: seq<byte>, i: nat, buf: array<byte>, start: nat) returns (ok: bool, p: nat, q: nat)
    requires i < |name| && start + 1 + |Octets(name, i)| <= buf.Length
    modifies buf
    ensures ok <==> name[i] != DOT && |Octets(name, i)| <= MAXLABEL
    ensures ok ==> p == LabelEnd(name, i) && q == start + 1 + |Octets(name, i)|
    ensures ok ==> buf[..q] == old(buf[..start]) + WireLabel(Octets(name, i))
  {
    p, q, ok := i, start, false;
    if name[i] == DOT {
      return;
    }
    ghost var l, pre := Octets(name, i), buf[..start];
    hide Octets, LabelEnd;
    var len := CountOctets(name, i);
    if len > MAXLABEL {
      return;
    }
    buf[start] := (len % 256) as byte;
    assert buf[..start + 1] == pre + [(len % 256) as byte];
    p, q := CopyOctets(name, i, buf, start + 1);
    assert pre + [(len % 256) as byte] + l == pre + WireLabel(l);
    ok := true;
  }

  // What the writing loop leaves: now are the bytes up to its cursor.
  ghost predicate Written(name: seq<byte>, pre: seq<byte>, status: Status, now: seq<byte>) {
    match LabelsFrom(name, 0)
    case None => status == BadName
    case Some(ls) => status == Success && now == pre + Wire(ls)
  }

  // The writing loop, from the first byte after the header. It needs one byte for
  // each unit and two more, but never looks whether it has them.
  method WriteName(name: seq<byte>, buf: array<byte>, start: nat) returns (status: Status, q: nat)
    requires start + Units(name, 0) + 2 <= buf.Length
    modifies buf
    ensures q <= buf.Length && Written(name, old(buf[..start]), status, buf[..q])
  {
    hide *;
    ghost var pre, done: seq<Label> := buf[..start], [];
    WritingStart(name);
    q := start;
    var i: nat, ok, p := 0, true, 0;
    while i < |name|
      invariant i <= |name| && Writing(name, i, done)
      invariant q == start + |Body(done)| < buf.Length && buf[..q] == pre + Body(done)
      decreases |name| - i
    {
      WritingStep(name, i, done);
      ok, p, q := WriteTurn(name, i, buf, q);
      if !ok {
        WrittenBad(name, pre, buf[..start]);
        return BadName, start;
      }
      Regroup(pre, done, Octets(name, i));
      done := done + [Octets(name, i)];
      if p == |name| {
        break;
      }
      i := p + 1;
    }
    if i == |name| {
      WritingEnd(name, i, done);
    }
    WireOf(name, pre, done);
    buf[q] := 0;
    q, status := q + 1, Success;
    assert buf[..q] == pre + Body(done) + [0];
  }

  lemma WrittenBad(name: seq<byte>, pre: seq<byte>, now: seq<byte>)
    requires LabelsFrom(name, 0) == None
    ensures Written(name, pre, BadName, now)
  {
  }

  lemma Regroup(pre: seq<byte>, done: seq<Label>, l: Label)
    ensures pre + Body(done) + WireLabel(l) == pre + (Body(done) + WireLabel(l))
  {
  }

  lemma WireOf(name: seq<byte>, pre: seq<byte>, done: seq<Label>)
    requires LabelsFrom(name, 0) == Some(done)
    ensures Written(name, pre, Success, pre + Body(done) + [0])
  {
    assert pre + Body(done) + [0] == pre + Wire(done);
  }

  // The bytes a successful query is meant to consist of.
  function Query(name: seq<byte>, dnsclass: int, qtype: int, id: int, rd: bool): seq<byte>
    requires ParseName(name).Some?
  {
    Header(id, rd) + Wire(ParseName(name).value) + Question(qtype, dnsclass)
  }

  method WriteHeader(buf: array<byte>, id: int, rd: bool)
    requires buf.Length >= HFIXEDSZ
    modifies buf
    ensures buf[..HFIXEDSZ] == Header(id, rd)
  {
    for i := 0 to HFIXEDSZ
      invariant forall j :: 0 <= j < i ==> buf[j] == 0
    {
      buf[i] := 0;
    }
    buf[0], buf[1] := High(id), Low(id);
    buf[2] := if rd then 1 else 0;
    buf[5] := 1;
  }

  // The type and class macros. The buffer may be one byte short for them: the store
  // that would fall outside it is left out here and reported as an overrun.
  method WriteQuestion(buf: array<byte>, q: nat, qtype: int, dnsclass: int) returns (overrun: bool)
    requires q + QFIXEDSZ - 1 <= buf.Length
    modifies buf
    ensures overrun <==> q + QFIXEDSZ > buf.Length
    ensures !overrun ==> buf[..q + QFIXEDSZ] == old(buf[..q]) + Question(qtype, dnsclass)
    ensures overrun ==> buf[..] == old(buf[..q]) + Question(qtype, dnsclass)[..QFIXEDSZ - 1]
  {
    buf[q], buf[q + 1], buf[q + 2] := High(qtype), Low(qtype), High(dnsclass);
    overrun := q + 3 >= buf.Length;
    if !overrun {
      buf[q + 3] := Low(dnsclass);
    }
  }

  // ares_mkquery: buf and buflen as the caller gets them, an empty array for NULL.
  method MkQuery(name: seq<byte>, dnsclass: int, qtype: int, id: int, rd: bool)
      returns (status: Status, buf: array<byte>, overrun: bool)
    ensures status == Success <==> QnameCount(name) <= 255 && ParseName(name).Some?
    ensures buf.Length == if QnameCount(name) <= 255 then QnameCount(name) + 12 + 4 else 0
    ensures overrun <==> status == Success && EndsInEscapedPeriod(name)
    ensures status == Success ==>
      var bytes := Query(name, dnsclass, qtype, id, rd);
      if overrun then buf[..] == bytes[..|bytes| - 1]
      else buf.Length >= |bytes| && buf[..|bytes|] == bytes
  {
    overrun := false;
    var len := CountName(name);
    if len > MAXCDNAME {
      buf := new byte[0];
      return BadName, buf, false;
    }
    buf := new byte[len + HFIXEDSZ + QFIXEDSZ];
    WriteHeader(buf, id, rd);
    var q;
    status, q := WriteName(if name == [DOT] then [] else name, buf, HFIXEDSZ);
    WrittenParse(name, Header(id, rd), status, buf[..q]);
    hide *;
    if status == BadName {
      return;
    }
    ghost var head := buf[..q];
    overrun := WriteQuestion(buf, q, qtype, dnsclass);
    QueryPrefix(name, dnsclass, qtype, id, rd, head);
  }

  // What WriteName did, in terms of the name before "." was taken out.
  lemma WrittenParse(name: seq<byte>, pre: seq<byte>, status: Status, now: seq<byte>)
    requires Written(if name == [DOT] then [] else name, pre, status, now)
    ensures status == Success <==> ParseName(name).Some?
    ensures status == Success ==>
      now == pre + Wire(ParseName(name).value)
      && |now| == |pre| + QnameCount(name) +
         if name == [DOT] then -1 else if EndsInEscapedPeriod(name) then 1 else 0
  {
    if ParseName(name).Some? {
      CountAgainstWire(name);
    }
  }

  lemma QueryPrefix(name: seq<byte>, dnsclass: int, qtype: int, id: int, rd: bool, head: seq<byte>)
    requires ParseName(name).Some? && head == Header(id, rd) + Wire(ParseName(name).value)
    ensures var bytes := Query(name, dnsclass, qtype, id, rd);
      && bytes == head + Question(qtype, dnsclass) && |bytes| == |head| + QFIXEDSZ
      && bytes[..|bytes| - 1] == head + Question(qtype, dnsclass)[..QFIXEDSZ - 1]
      && !EndsInEscapedPeriod([DOT])
  {
  }

  // One name that overruns the buffer: the letter a and an escaped period.
  lemma OverrunName()
    ensures var name: seq<byte> := [97, BACKSLASH, DOT];
      && QnameCount(name) <= MAXCDNAME && ParseName(name) == Some([[97, DOT]]) && EndsInEscapedPeriod(name)
      && |Wire([[97, DOT]])| == QnameCount(name) + 1
  {
    var name: seq<byte> := [97, BACKSLASH, DOT];
    assert Octets(name, 3) == [] && LabelEnd(name, 3) == 3;
    assert Octets(name, 1) == [DOT] && LabelEnd(name, 1) == 3;
    assert Octets(name, 0) == [97, DOT] && LabelEnd(name, 0) == 3;
    assert !Escaped(name, 0) && !Escaped(name, 1) && Escaped(name, 2);
    assert Units(name, 3) == 0 && Units(name, 1) == 1 && Units(name, 0) == 2;
    assert Body([]) == [] && [[97, DOT]][1..] == [];
  }
}
