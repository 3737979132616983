// What the framing of src/Connection.cpp makes of a stream of lines: section 2.3 of RFC 1459.
module FramingLaw {
  import opened Basics
  import opened FifoBuffer
  import opened Framing

  // A line as it is sent, with CR LF or LF alone behind it.
  datatype Sent = Sent(text: seq<byte>, cr: bool)

  // A text has no LF in it and no CR at its end.
  predicate Sendable(s: Sent) {
    (forall i :: 0 <= i < |s.text| ==> s.text[i] != 10) && (s.text != [] ==> s.text[|s.text| - 1] != 13)
  }

  function Bytes(s: Sent): seq<byte> {
    s.text + if s.cr then [13, 10] else [10]
  }

  function Stream(lines: seq<Sent>): seq<byte> {
    if lines == [] then [] else Bytes(lines[0]) + Stream(lines[1..])
  }

  // The index of the first zero byte, or the length.
  function FirstZero(s: seq<byte>): (k: nat)
    ensures k <= |s| && (k < |s| ==> s[k] == 0) && forall i :: 0 <= i < k ==> s[i] != 0
  {
    if s == [] || s[0] == 0 then 0 else 1 + FirstZero(s[1..])
  }

  // Each text up to its first zero byte, where that leaves something.
  function Texts(lines: seq<Sent>): seq<Line> {
    if lines == [] then []
    else
      var text := lines[0].text[..FirstZero(lines[0].text)];
      (if text == [] then [] else [text]) + Texts(lines[1..])
  }

  lemma {:induction false} CStringIsFront(s: seq<byte>)
    ensures CString(s) == s[..FirstZero(s)]
  {
    if s != [] && s[0] != 0 {
      CStringIsFront(s[1..]);
    }
  }

  // The first line of a stream.
  lemma FirstLine(s: Sent, rest: seq<byte>)
    requires Sendable(s)
    ensures var (all, text) := (Bytes(s) + rest, s.text[..FirstZero(s.text)]);
      && |Bytes(s)| <= |all| && all[|Bytes(s)|..] == rest
      && Lines(all, 0) == (if text == [] then [] else [text]) + Lines(all, |Bytes(s)|)
      && RestAt(all, 0) == RestAt(all, |Bytes(s)|)
  {
    hide Lines, RestAt, LfAt, CString, FirstZero, Deliver;
    var all, n := Bytes(s) + rest, |Bytes(s)|;
    var raw := if s.cr then s.text + [13] else s.text;
    assert Bytes(s) == raw + [10] && all[..n - 1] == raw && all[n - 1] == 10;
    assert forall i :: 0 <= i < n - 1 ==> all[i] == raw[i];
    FirstLf(all, 0, n - 1);
    Unfold(all, 0);
    assert all[0..n - 1] == raw;
    CStringIsFront(s.text);
    if s.cr {
      DeliverCr(s.text);
    } else {
      DeliverPlain(s.text);
    }
  }

  lemma {:induction false} FirstLf(s: seq<byte>, l: nat, e: nat)
    requires l <= e < |s| && s[e] == 10 && forall i :: l <= i < e ==> s[i] != 10
    ensures LfAt(s, l) == e
    decreases e - l
  {
    if l < e {
      FirstLf(s, l + 1, e);
    }
  }

  lemma {:induction false} NoLf(s: seq<byte>, l: nat)
    requires l <= |s| && forall i :: l <= i < |s| ==> s[i] != 10
    ensures LfAt(s, l) == |s| && Lines(s, l) == [] && RestAt(s, l) == l
    decreases |s| - l
  {
    if l < |s| {
      NoLf(s, l + 1);
    }
  }

  // Every stream of lines, with LF or CR LF behind each and a rest without LF behind them all,
  // delivers their texts up to a zero byte, in order and without the empty ones, and leaves
  // the rest.
  lemma {:induction false} StreamDelivers(lines: seq<Sent>, rest: seq<byte>)
    requires (forall k :: 0 <= k < |lines| ==> Sendable(lines[k])) && forall i :: 0 <= i < |rest| ==> rest[i] != 10
    ensures var all := Stream(lines) + rest;
      Lines(all, 0) == Texts(lines) && all[RestAt(all, 0)..] == rest
    decreases |lines|
  {
    hide Lines, RestAt, Bytes, FirstZero, Sendable;
    var all := Stream(lines) + rest;
    if lines == [] {
      assert all == rest;
      NoLf(rest, 0);
      assert rest[0..] == rest;
    } else {
      var tail := Stream(lines[1..]) + rest;
      var n := |Bytes(lines[0])|;
      assert all == Bytes(lines[0]) + tail;
      FirstLine(lines[0], tail);
      StreamDelivers(lines[1..], rest);
      LinesShift(all, n, 0);
      assert all[RestAt(all, 0)..] == all[n..][RestAt(tail, 0)..];
    }
  }

  // Without zero bytes the texts are the lines that are not empty.
  function NotEmpty(lines: seq<Sent>): seq<Line> {
    if lines == [] then [] else (if lines[0].text == [] then [] else [lines[0].text]) + NotEmpty(lines[1..])
  }

  lemma {:induction false} TextsWithoutZero(lines: seq<Sent>)
    requires forall k, i :: 0 <= k < |lines| && 0 <= i < |lines[k].text| ==> lines[k].text[i] != 0
    ensures Texts(lines) == NotEmpty(lines)
  {
    if lines != [] {
      assert forall k :: 0 <= k < |lines[1..]| ==> lines[1..][k] == lines[k + 1];
      TextsWithoutZero(lines[1..]);
      var text := lines[0].text;
      assert FirstZero(text) == |text| && text[..|text|] == text;
    }
  }

  function Joined(chunks: seq<seq<byte>>): seq<byte> {
    if chunks == [] then [] else Joined(chunks[..|chunks| - 1]) + chunks[|chunks| - 1]
  }

  // However the stream arrives, exactly those lines are parsed and the rest is kept.
  method ReceiveAll(chunks: seq<seq<byte>>, ghost lines: seq<Sent>, ghost rest: seq<byte>) returns (c: Connection)
    requires forall k :: 0 <= k < |chunks| ==> chunks[k] != []
    requires Joined(chunks) == Stream(lines) + rest
    requires (forall k :: 0 <= k < |lines| ==> Sendable(lines[k])) && forall i :: 0 <= i < |rest| ==> rest[i] != 10
    ensures c.Valid() && c.lines == Texts(lines) && c.recvQ.Contents() == rest
  {
    hide Lines, RestAt, Sendable, Stream, Texts, Buffer.Valid, Buffer.Contents;
    StreamDelivers(lines, rest);
    c := new Connection();
    for k := 0 to |chunks|
      invariant c.Valid() && c.received == Joined(chunks[..k]) && fresh(c) && fresh(c.recvQ)
      invariant c.recvQ.buffer == null || fresh(c.recvQ.buffer)
    {
      assert chunks[..k + 1][..k] == chunks[..k];
      c.Receive(chunks[k]);
    }
    assert chunks[..|chunks|] == chunks;
  }
}
