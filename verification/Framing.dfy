// src/Connection.cpp, ProcessBuffer: cutting the bytes that arrive into lines.
module Framing {
  import opened Basics
  import opened FifoBuffer

  type Line = seq<byte>

  // ---- what the lines of a byte stream are -----------------------------------------

  // The index of the first LF from l on; |s| when there is none.
  function LfAt(s: seq<byte>, l: nat): (e: nat)
    requires l <= |s|
    ensures l <= e <= |s| && (e < |s| ==> s[e] == LF)
    ensures forall i :: l <= i < e ==> s[i] != LF
    decreases |s| - l
  {
    if l == |s| || s[l] == LF then l else LfAt(s, l + 1)
  }

  // A C string ends before its first zero byte.
  function CString(s: seq<byte>): seq<byte> {
    if s == [] || s[0] == 0 then [] else [s[0]] + CString(s[1..])
  }

  // What ParseLine is called with for the raw bytes of a line: one CR before the line
  // end is dropped, and so are empty lines.
  function Deliver(raw: seq<byte>): seq<Line> {
    var text := if raw != [] && raw[|raw| - 1] == CR then raw[..|raw| - 1] else raw;
    NonEmpty(CString(text))
  }

  function NonEmpty(line: Line): seq<Line> {
    if line == [] then [] else [line]
  }

  // The lines that are complete in s, from l on.
  function Lines(s: seq<byte>, l: nat): seq<Line>
    requires l <= |s|
    decreases |s| - l
  {
    var e := LfAt(s, l);
    if e == |s| then [] else Deliver(s[l..e]) + Lines(s, e + 1)
  }

  // Where the last, incomplete line of s starts.
  function RestAt(s: seq<byte>, l: nat): (r: nat)
    requires l <= |s|
    ensures l <= r <= |s| && (r > l ==> s[r - 1] == LF) && forall i :: r <= i < |s| ==> s[i] != LF
    decreases |s| - l
  {
    var e := LfAt(s, l);
    if e == |s| then l else RestAt(s, e + 1)
  }

  // ---- splitting the stream changes nothing ------------------------------------------

  lemma {:induction false} LfAtShift(s: seq<byte>, k: nat, l: nat)
    requires k <= |s| && l <= |s| - k
    ensures LfAt(s[k..], l) + k == LfAt(s, k + l)
    decreases |s| - l
  {
    if l < |s| - k && s[k + l] != LF {
      LfAtShift(s, k, l + 1);
    }
  }

  lemma Unfold(s: seq<byte>, l: nat)
    requires l <= |s|
    ensures var e := LfAt(s, l);
      && Lines(s, l) == (if e == |s| then [] else Deliver(s[l..e]) + Lines(s, e + 1))
      && RestAt(s, l) == if e == |s| then l else RestAt(s, e + 1)
  {
  }

  lemma SliceOfRest(s: seq<byte>, k: nat, l: nat, e: nat)
    requires k <= |s| && l <= e <= |s| - k
    ensures s[k..][l..e] == s[k + l..k + e]
  {
  }

  // Lines of a suffix, counted from its own start.
  lemma {:induction false} LinesShift(s: seq<byte>, k: nat, l: nat)
    requires k <= |s| && l <= |s| - k
    ensures Lines(s[k..], l) == Lines(s, k + l) && RestAt(s[k..], l) + k == RestAt(s, k + l)
    decreases |s| - l
  {
    hide *;
    var t := s[k..];
    LfAtShift(s, k, l);
    Unfold(t, l);
    Unfold(s, k + l);
    var e := LfAt(t, l);
    if e < |t| {
      LinesShift(s, k, e + 1);
      SliceOfRest(s, k, l, e);
    }
  }

  lemma {:induction false} LfAtAppend(a: seq<byte>, b: seq<byte>, l: nat)
    requires l <= |a| && LfAt(a, l) < |a|
    ensures LfAt(a + b, l) == LfAt(a, l)
    decreases |a| - l
  {
    if a[l] != LF {
      LfAtAppend(a, b, l + 1);
    }
  }

  lemma SliceOfFront(a: seq<byte>, b: seq<byte>, l: nat, e: nat)
    requires l <= e <= |a|
    ensures (a + b)[l..e] == a[l..e]
  {
  }

  lemma NothingFirst(a: seq<Line>)
    ensures [] + a == a
  {
  }

  lemma Regroup(a: seq<Line>, b: seq<Line>, c: seq<Line>)
    ensures a + b + c == a + (b + c)
  {
  }

  // The lines complete in a come first; the rest of a and b give the others.
  lemma {:induction false} LinesAppend(a: seq<byte>, b: seq<byte>, l: nat)
    requires l <= |a|
    ensures Lines(a + b, l) == Lines(a, l) + Lines(a + b, RestAt(a, l))
    ensures RestAt(a + b, l) == RestAt(a + b, RestAt(a, l))
    decreases |a| - l
  {
    hide *;
    var e := LfAt(a, l);
    Unfold(a, l);
    if e < |a| {
      LfAtAppend(a, b, l);
      Unfold(a + b, l);
      LinesAppend(a, b, e + 1);
      SliceOfFront(a, b, l, e);
      Regroup(Deliver(a[l..e]), Lines(a, e + 1), Lines(a + b, RestAt(a, l)));
    } else {
      NothingFirst(Lines(a + b, l));
    }
  }

  // Framing does not depend on where the stream is cut: the lines of the whole are those
  // of the first part and then those of what it left over, followed by the second part.
  lemma CutAnywhere(a: seq<byte>, b: seq<byte>)
    ensures var rest := a[RestAt(a, 0)..] + b;
      && Lines(a + b, 0) == Lines(a, 0) + Lines(rest, 0)
      && (a + b)[RestAt(a + b, 0)..] == rest[RestAt(rest, 0)..]
  {
    hide *;
    var r := RestAt(a, 0);
    var rest := a[r..] + b;
    LinesAppend(a, b, 0);
    assert (a + b)[r..] == rest;
    LinesShift(a + b, r, 0);
    assert (a + b)[r..][RestAt(rest, 0)..] == (a + b)[r + RestAt(rest, 0)..];
  }

  // ---- ProcessBuffer ---------------------------------------------------------------------

  lemma DeliverPlain(raw: seq<byte>)
    requires raw == [] || raw[|raw| - 1] != CR
    ensures Deliver(raw) == NonEmpty(CString(raw))
    ensures raw == [] ==> Deliver(raw) == []
  {
  }

  lemma DeliverCr(text: seq<byte>)
    ensures Deliver(text + [CR]) == NonEmpty(CString(text))
  {
    assert (text + [CR])[..|text|] == text;
  }

  // The end of a line at its LF.
  lemma AtLf(q: seq<byte>, l: nat, i: nat)
    requires l <= i < |q| && LfAt(q, l) == i && (l < i ==> q[i - 1] != CR)
    ensures Lines(q, l) == NonEmpty(CString(q[l..i])) + Lines(q, i + 1)
    ensures RestAt(q, l) == RestAt(q, i + 1)
  {
    hide *;
    Unfold(q, l);
    DeliverPlain(q[l..i]);
  }

  lemma LfNext(q: seq<byte>, l: nat, e: nat)
    requires l <= e < |q| && q[e] == LF && (LfAt(q, l) >= e || (e > l && q[e - 1] != LF && LfAt(q, l) >= e - 1))
    ensures LfAt(q, l) == e
  {
  }

  // The end of a line at the CR before its LF: the LF that follows then ends an empty
  // line.
  lemma AtCr(q: seq<byte>, l: nat, i: nat)
    requires l <= i && i + 1 < |q| && LfAt(q, l) >= i && q[i] == CR && q[i + 1] == LF
    ensures Lines(q, l) == NonEmpty(CString(q[l..i])) + Lines(q, i + 1)
    ensures RestAt(q, l) == RestAt(q, i + 1) && LfAt(q, i + 1) == i + 1
  {
    hide Lines, RestAt, LfAt, Deliver, CString, NonEmpty;
    LfNext(q, l, i + 1);
    LfNext(q, i + 1, i + 1);
    Unfold(q, l);
    Unfold(q, i + 1);
    assert q[l..i + 1] == q[l..i] + [CR];
    DeliverCr(q[l..i]);
    DeliverPlain(q[i + 1..i + 1]);
  }

  // The state of the scan at index i, the current line starting at l.
  ghost predicate Scanning(q: seq<byte>, l: nat, i: nat, done: seq<Line>) {
    && l <= i <= |q| && LfAt(q, l) >= i
    && done + Lines(q, l) == Lines(q, 0) && RestAt(q, l) == RestAt(q, 0)
    && (l < i < |q| && q[i] == LF ==> q[i - 1] != CR)
  }

  predicate EndsLine(q: seq<byte>, i: nat)
    requires i < |q|
  {
    q[i] == LF || (q[i] == CR && i + 1 < |q| && q[i + 1] == LF)
  }

  lemma ScanStart(q: seq<byte>)
    ensures Scanning(q, 0, 0, [])
  {
  }

  lemma ScanOn(q: seq<byte>, l: nat, i: nat, done: seq<Line>)
    requires i < |q| && Scanning(q, l, i, done) && !EndsLine(q, i)
    ensures Scanning(q, l, i + 1, done)
  {
  }

  lemma ScanLine(q: seq<byte>, l: nat, i: nat, done: seq<Line>)
    requires i < |q| && Scanning(q, l, i, done) && EndsLine(q, i)
    ensures Scanning(q, i + 1, i + 1, done + NonEmpty(CString(q[l..i])))
  {
    hide Lines, RestAt, CString, LfAt, NonEmpty;
    if q[i] == LF {
      AtLf(q, l, i);
    } else {
      AtCr(q, l, i);
    }
    var line := NonEmpty(CString(q[l..i]));
    assert done + (line + Lines(q, i + 1)) == (done + line) + Lines(q, i + 1);
  }

  lemma ScanEnd(q: seq<byte>, l: nat, done: seq<Line>)
    requires Scanning(q, l, |q|, done)
    ensures done == Lines(q, 0) && l == RestAt(q, 0)
  {
    assert done + [] == done;
  }

  lemma Appended(done: seq<Line>, text: Line)
    ensures done + NonEmpty(text) == if text == [] then done else done + [text]
  {
  }

  // The loop of ProcessBuffer: the lines it hands to ParseLine, and where it ends up.
  method Scan(q: seq<byte>) returns (parsed: seq<Line>, line: nat)
    ensures parsed == Lines(q, 0) && line == RestAt(q, 0) && line <= |q|
  {
    hide *;
    ScanStart(q);
    parsed, line := [], 0;
    for i := 0 to |q|
      invariant line <= i && Scanning(q, line, i, parsed)
    {
      if EndsLine(q, i) {
        ScanLine(q, line, i, parsed);
        var text := CString(q[line..i]);
        Appended(parsed, text);
        if text != [] {
          parsed := parsed + [text];
        }
        line := i + 1;
      } else {
        ScanOn(q, line, i, parsed);
      }
    }
    ScanEnd(q, line, parsed);
  }

  class Connection {
    const recvQ: Buffer
    var lines: seq<Line>           // what ParseLine was called with
    ghost var received: seq<byte>  // all that was read from the socket

    // However the stream was cut, the lines are those of the whole stream and the queue
    // holds the bytes after its last LF.
    ghost predicate Valid()
      reads this, recvQ, recvQ.buffer
    {
      && recvQ.Valid()
      && lines == Lines(received, 0)
      && recvQ.Contents() == received[RestAt(received, 0)..]
    }

    constructor ()
      ensures Valid() && received == [] && lines == [] && fresh(recvQ) && recvQ.buffer == null
    {
      recvQ := new Buffer();
      lines, received := [], [];
    }

    method ProcessBuffer()
      requires recvQ.Valid()
      modifies this`lines, recvQ
      ensures recvQ.Valid() && lines == old(lines) + Lines(old(recvQ.Contents()), 0)
      ensures recvQ.Contents() == old(recvQ.Contents())[RestAt(old(recvQ.Contents()), 0)..]
      ensures recvQ.buffer == old(recvQ.buffer) || recvQ.buffer == null || fresh(recvQ.buffer)
    {
      hide *;
      var q := recvQ.Peek();
      var parsed, line := Scan(q);
      lines := lines + parsed;
      var taken := recvQ.Read(line);
    }

    // One successful recv of some bytes, and ProcessBuffer.
    method Receive(chunk: seq<byte>)
      requires Valid() && chunk != []
      modifies this, recvQ, recvQ.buffer
      ensures Valid() && received == old(received) + chunk
      ensures recvQ.buffer == old(recvQ.buffer) || recvQ.buffer == null || fresh(recvQ.buffer)
    {
      hide Lines, RestAt, Buffer.Valid, Buffer.Contents;
      CutAnywhere(received, chunk);
      var ok := recvQ.Write(chunk);
      received := received + chunk;
      ProcessBuffer();
    }
  }
}
