// When the tokenizer of src/utility.cpp gives back the words a line was made of.
module Words {
  import opened ISupport
  import opened Tokens
  import opened Rejoin

  predicate Word(w: string) {
    !Has(w, ' ') && !Has(w, NUL)
  }

  predicate AllWords(ws: seq<string>) {
    forall i :: 0 <= i < |ws| ==> Word(ws[i])
  }

  // The words with a space between them.
  function Spaced(ws: seq<string>): string
    requires ws != []
  {
    if |ws| == 1 then ws[0] else ws[0] + " " + Spaced(ws[1..])
  }

  // What the pointers of a tokenized line point at.
  function Args(line: string): seq<string> {
    var t := Cut(line);
    seq(|t.at| + 1, k requires 0 <= k <= |t.at| => if Start(t, k) <= SIZE then Token(Memory(line, t), Start(t, k)) else [])
  }

  // ws[0] is the n-th word: the words after it are not empty, there are at most 32 of them
  // all, and none but the 32nd begins with a colon.
  predicate Readable(ws: seq<string>, n: nat) {
    |ws| <= 1 || (ws[1] != [] && n + 1 < 32 && (ws[1][0] == ':' ==> n + 2 == 32) && Readable(ws[1..], n + 1))
  }

  // Where the words end that have one after them, when the first starts at i.
  function Ends(ws: seq<string>, i: nat): seq<nat> {
    if |ws| <= 1 then [] else [i + |ws[0]|] + Ends(ws[1..], i + |ws[0]| + 1)
  }

  lemma {:induction false} EndsSize(ws: seq<string>, i: nat)
    ensures |Ends(ws, i)| == if ws == [] then 0 else |ws| - 1
  {
    if |ws| > 1 {
      EndsSize(ws[1..], i + |ws[0]| + 1);
    }
  }

  // Nothing is cut inside a word.
  lemma {:induction false} ScanOver(line: string, i: nat, j: nat, cuts: seq<nat>)
    requires i <= j <= Length(line) && forall k :: i <= k < j ==> line[k] != ' '
    ensures Scan(line, i, cuts) == Scan(line, j, cuts)
    decreases j - i
  {
    if i < j {
      ScanOver(line, i + 1, j, cuts);
    }
  }

  lemma FirstWord(line: string, i: nat, ws: seq<string>)
    requires ws != [] && AllWords(ws) && i <= |line| && line[i..] == Spaced(ws)
    ensures i + |ws[0]| <= |line| && line[i..i + |ws[0]|] == ws[0]
    ensures forall k :: i <= k < i + |ws[0]| ==> line[k] != ' ' && line[k] != NUL && line[k] == ws[0][k - i]
    ensures |ws| == 1 ==> i + |ws[0]| == |line|
    ensures |ws| > 1 ==> i + |ws[0]| < |line| && line[i + |ws[0]|] == ' '
                         && line[i + |ws[0]| + 1..] == Spaced(ws[1..]) && AllWords(ws[1..])
  {
    hide Find;
    var w, n := ws[0], |ws[0]|;
    WordHasNone(w);
    assert forall k :: i <= k < i + n ==> line[k] == line[i..][k - i];
    if |ws| > 1 {
      assert line[i + n] == line[i..][n];
      assert line[i + n + 1..] == line[i..][n + 1..];
      assert (w + " " + Spaced(ws[1..]))[n + 1..] == Spaced(ws[1..]);
    }
  }

  lemma WordHasNone(w: string)
    requires Word(w)
    ensures forall k :: 0 <= k < |w| ==> w[k] != ' ' && w[k] != NUL
  {
  }

  // What follows the space after the first word.
  lemma SecondWord(line: string, e: nat, ws: seq<string>)
    requires ws != [] && AllWords(ws) && e < |line| && line[e + 1..] == Spaced(ws)
    ensures Peek(line, e + 1) == if ws[0] != [] then ws[0][0] else if |ws| == 1 then NUL else ' '
    ensures ws[0] != [] ==> ws[0][0] != ' ' && ws[0][0] != NUL
  {
    FirstWord(line, e + 1, ws);
    WordHasNone(ws[0]);
  }

  // The scan from the start of a word.
  lemma {:induction false} ScanWords(line: string, i: nat, cuts: seq<nat>, ws: seq<string>)
    requires ws != [] && AllWords(ws) && i <= Length(line) && line[i..] == Spaced(ws) && |cuts| + 1 < LIMIT
    ensures var (t, n) := (Scan(line, i, cuts), |cuts| + |ws| - 1);
            |t.at| <= n && cuts <= t.at
            && (|t.at| == n ==> t.at == cuts + Ends(ws, i))
            && (|line| < SIZE ==>
                  (|t.at| == n && !t.colon <==> Readable(ws, |cuts|)) && (|t.at| == n && !t.colon ==> t.end == |line|))
    decreases |ws|
  {
    hide Readable, Ends, Find, Has, Spaced, AllWords, Scan;
    FirstWord(line, i, ws);
    EndsUnfold(ws, i);
    ReadableUnfold(ws, |cuts|);
    var e := i + |ws[0]|;
    if e >= Length(line) {
      ScanOver(line, i, Length(line), cuts);
      ScanStep(line, Length(line), cuts);
    } else {
      ScanOver(line, i, e, cuts);
      ScanStep(line, e, cuts);
      SecondWord(line, e, ws[1..]);
      if ws[1] == [] {
        if |ws| > 2 {
          ScanWords(line, e + 1, cuts, ws[1..]);
        }
      } else if |cuts| + 2 < LIMIT && line[e + 1] != ':' {
        ScanWords(line, e + 1, cuts + [e], ws[1..]);
      } else {
        ReadableUnfold(ws[1..], |cuts| + 1);
        EndsUnfold(ws[1..], e + 1);
      }
    }
  }

  lemma EndsUnfold(ws: seq<string>, i: nat)
    ensures Ends(ws, i) == if |ws| <= 1 then [] else [i + |ws[0]|] + Ends(ws[1..], i + |ws[0]| + 1)
  {
  }

  lemma ReadableUnfold(ws: seq<string>, n: nat)
    ensures Readable(ws, n) <==>
      |ws| <= 1 || (ws[1] != [] && n + 1 < 32 && (ws[1][0] == ':' ==> n + 2 == 32) && Readable(ws[1..], n + 1))
  {
  }

  // Word k of a line lies between the space before it and the one after it.
  lemma {:induction false} WordAt(line: string, i: nat, ws: seq<string>, k: nat)
    requires ws != [] && AllWords(ws) && i <= |line| && line[i..] == Spaced(ws) && k < |ws|
    ensures |Ends(ws, i)| == |ws| - 1
    ensures var b, e := (if k == 0 then i else Ends(ws, i)[k - 1] + 1), (if k + 1 < |ws| then Ends(ws, i)[k] else |line|);
            b <= e <= |line| && line[b..e] == ws[k]
    decreases |ws|
  {
    hide Spaced, AllWords, Ends;
    FirstWord(line, i, ws);
    EndsUnfold(ws, i);
    EndsSize(ws, i);
    if k > 0 {
      WordAt(line, i + |ws[0]| + 1, ws[1..], k - 1);
    }
  }

  lemma TokenIsShort(mem: seq<char>, p: nat, q: nat)
    requires p <= q < |mem| && mem[q] == NUL
    ensures |Token(mem, p)| <= q - p
  {
    AfterReaches(mem, p, q);
  }

  lemma SpacedWord(ws: seq<string>)
    requires ws != [] && AllWords(ws)
    ensures !Has(Spaced(ws), NUL)
  {
    if |ws| > 1 {
      SpacedWord(ws[1..]);
    }
  }

  // The number of arguments and the last of them tell whether the words came back.
  lemma LastTells(ws: seq<string>)
    requires ws != [] && AllWords(ws)
    ensures var (line, a) := (Spaced(ws), Args(Spaced(ws)));
            |a| <= |ws| && (|a| == |ws| && a[|ws| - 1] == ws[|ws| - 1] ==> |line| < SIZE && Readable(ws, 0))
  {
    hide Spaced, AllWords, Ends, Readable, Memory, Good, Find, Scan, Token;
    var line, last := Spaced(ws), |ws| - 1;
    var t := Cut(line);
    SpacedWord(ws);
    assert line[0..] == line;
    ScanWords(line, 0, [], ws);
    CutIsGood(line);
    if |t.at| == last && Args(line)[last] == ws[last] {
      WordAt(line, 0, ws, last);
      assert [] + Ends(ws, 0) == Ends(ws, 0);
      LastStarts(line, t, last);
      if t.colon || |line| >= SIZE {
        assert |ws[last]| == |line| - (if last == 0 then 0 else t.at[last - 1] + 1);
        LastIsShort(line, t, last);
      }
    }
  }

  lemma LastStarts(line: string, t: Cuts, k: nat)
    requires Good(line, t, Length(line)) && k == |t.at|
    ensures Start(t, k) <= SIZE && (t.colon ==> k > 0 && Start(t, k) == t.at[k - 1] + 2)
    ensures !t.colon ==> Start(t, k) == if k == 0 then 0 else t.at[k - 1] + 1
  {
  }

  lemma LastIsShort(line: string, t: Cuts, k: nat)
    requires !Has(line, NUL) && Good(line, t, Length(line)) && k == |t.at| && Start(t, k) <= SIZE
    requires t.colon || |line| >= SIZE
    ensures |Memory(line, t)| == SIZE
    ensures |Token(Memory(line, t), Start(t, k))| < |line| - (if k == 0 then 0 else t.at[k - 1] + 1)
  {
    hide Token, Find, Has;
    var mem := Memory(line, t);
    MemorySize(line, t);
    assert mem[Length(line)] == NUL;
    if Start(t, k) <= Length(line) {
      TokenIsShort(mem, Start(t, k), Length(line));
    } else {
      assert Start(t, k) == SIZE;
      TokenOfNothing(mem);
    }
  }

  lemma TokenOfNothing(mem: seq<char>)
    ensures Token(mem, |mem|) == []
  {
  }

  lemma Recut(ws: seq<string>)
    requires ws != [] && AllWords(ws) && |Spaced(ws)| < SIZE && Readable(ws, 0)
    ensures Cut(Spaced(ws)) == Cuts(Ends(ws, 0), false, |Spaced(ws)|) && |Ends(ws, 0)| == |ws| - 1
  {
    hide Spaced, AllWords, Ends, Readable, Find, Scan;
    assert Spaced(ws)[0..] == Spaced(ws) && [] + Ends(ws, 0) == Ends(ws, 0);
    ScanWords(Spaced(ws), 0, [], ws);
    EndsSize(ws, 0);
  }

  lemma ArgIs(line: string, k: nat)
    ensures |Args(line)| == |Cut(line).at| + 1
    ensures k <= |Cut(line).at| && Start(Cut(line), k) <= SIZE
        ==> Args(line)[k] == Token(Memory(line, Cut(line)), Start(Cut(line), k))
  {
  }

  lemma ReadableIsBack(ws: seq<string>, k: nat)
    requires ws != [] && AllWords(ws) && k < |ws| && |Spaced(ws)| < SIZE && Readable(ws, 0)
    ensures |Args(Spaced(ws))| == |ws| && Args(Spaced(ws))[k] == ws[k]
  {
    hide Spaced, AllWords, Ends, Readable, Memory, Good, Find, Cut, Token, Has, Args;
    var line := Spaced(ws);
    SpacedWord(ws);
    assert line[0..] == line;
    Recut(ws);
    CutIsGood(line);
    WordAt(line, 0, ws, k);
    TokenOf(line, Cut(line), k);
    ArgIs(line, k);
  }

  lemma Limits()
    ensures SIZE == 512 && LIMIT == 32
  {
  }

  // The tokenizer gives back the words exactly when the line has at most 511 bytes and the
  // words are readable.
  lemma WordsAreArgs(ws: seq<string>)
    requires ws != [] && AllWords(ws)
    ensures Args(Spaced(ws)) == ws <==> |Spaced(ws)| <= 511 && Readable(ws, 0)
  {
    hide *;
    Limits();
    LastTells(ws);
    if |Spaced(ws)| < SIZE && Readable(ws, 0) {
      ReadableIsBack(ws, 0);
      forall k | 0 <= k < |ws|
        ensures Args(Spaced(ws))[k] == ws[k]
      {
        ReadableIsBack(ws, k);
      }
    }
  }

  // ---- One word among the others ----------------------------------------------------------

  // Words before another one that can be read whatever follows: none but the first is empty
  // or begins with a colon.
  predicate Heading(head: seq<string>) {
    AllWords(head) && forall k :: 1 <= k < |head| ==> head[k] != [] && head[k][0] != ':'
  }

  function Room(head: seq<string>): nat {
    if head == [] then 0 else |head[0]| + 1 + Room(head[1..])
  }

  predicate Plain(w: string) {
    w != [] && w[0] != ':'
  }

  lemma {:induction false} SkipHead(line: string, i: nat, cuts: seq<nat>, head: seq<string>, rest: seq<string>)
      returns (more: seq<nat>)
    requires Heading(head) && rest != [] && AllWords(rest) && Plain(rest[0])
    requires i <= |line| && line[i..] == Spaced(head + rest)
    requires i + Room(head) < Length(line) && |cuts| + |head| + 1 < LIMIT
    ensures |more| == |head| && Scan(line, i, cuts) == Scan(line, i + Room(head), cuts + more)
    ensures line[i + Room(head)..] == Spaced(rest)
    ensures head != [] ==> more[|head| - 1] + 1 == i + Room(head)
    decreases |head|
  {
    hide Spaced, AllWords, Find, Scan, Has;
    if head == [] {
      more := [];
      assert cuts + more == cuts && head + rest == rest;
    } else {
      var ws := head + rest;
      assert ws[1..] == head[1..] + rest && ws[0] == head[0];
      HeadingFront(head, rest);
      FirstWord(line, i, ws);
      var e := i + |head[0]|;
      ScanOver(line, i, e, cuts);
      ScanStep(line, e, cuts);
      SecondWord(line, e, ws[1..]);
      var tail := SkipHead(line, e + 1, cuts + [e], head[1..], rest);
      more := [e] + tail;
      assert cuts + [e] + tail == cuts + more;
    }
  }

  lemma HeadingFront(head: seq<string>, rest: seq<string>)
    requires Heading(head) && head != [] && rest != [] && AllWords(rest) && Plain(rest[0])
    ensures Heading(head[1..]) && AllWords(head + rest) && Plain((head[1..] + rest)[0])
  {
    hide Find, Has;
  }

  predicate Blank(line: string, p: nat, q: nat) {
    forall j :: p <= j < q && j < |line| ==> line[j] == ' '
  }

  // Empty words at the front of the rest only lengthen the word before them.
  lemma {:induction false} SpacesOnly(line: string, i: nat, cuts: seq<nat>, ws: seq<string>)
    requires ws != [] && AllWords(ws) && ws[0] == [] && i <= Length(line) && line[i..] == Spaced(ws)
    requires |cuts| + 1 < LIMIT
    ensures var t := Scan(line, i, cuts);
            cuts <= t.at && (t.at == cuts ==> !t.colon)
            && i <= End(t, |cuts|) <= Length(line) && Blank(line, i, End(t, |cuts|))
    decreases |ws|
  {
    hide Spaced, AllWords, Find, Has, Scan;
    FirstWord(line, i, ws);
    ScanStep(line, i, cuts);
    if i < Length(line) {
      SecondWord(line, i, ws[1..]);
      if ws[1] == [] && |ws| > 2 {
        SpacesOnly(line, i + 1, cuts, ws[1..]);
      } else if ws[1] != [] && |cuts| + 2 < LIMIT && line[i + 1] != ':' {
        ScanKeeps(line, i + 1, cuts + [i]);
      }
    }
  }

  lemma {:induction false} ScanKeeps(line: string, i: nat, cuts: seq<nat>)
    requires i <= Length(line)
    ensures cuts <= Scan(line, i, cuts).at
    decreases Length(line) - i
  {
    if i < Length(line) {
      ScanKeeps(line, i + 1, cuts);
      ScanKeeps(line, i + 1, cuts + [i]);
    }
  }

  // At the space after a word: it is cut, or the empty words after it join the word.
  lemma AtSpace(line: string, e: nat, cuts: seq<nat>, rest: seq<string>)
    requires rest != [] && AllWords(rest) && e < Length(line) && line[e] == ' ' && line[e + 1..] == Spaced(rest)
    requires |cuts| + 1 < LIMIT
    ensures var t := Scan(line, e, cuts);
            cuts <= t.at && (t.at == cuts ==> !t.colon)
            && (End(t, |cuts|) == e
                || (e < End(t, |cuts|) <= Length(line) && Blank(line, e, End(t, |cuts|))))
  {
    hide Spaced, AllWords, Find, Has, Scan;
    ScanStep(line, e, cuts);
    SecondWord(line, e, rest);
    if rest[0] == [] && |rest| > 1 {
      SpacesOnly(line, e + 1, cuts, rest);
    } else if rest[0] != [] && |cuts| + 2 < LIMIT && line[e + 1] != ':' {
      ScanKeeps(line, e + 1, cuts + [e]);
    }
  }

  // How a word that ends at e comes back when it is scanned next: as it is, cut off by the
  // buffer, or with the spaces of empty words after it.
  predicate Comes(t: Cuts, line: string, cuts: seq<nat>, e: nat) {
    cuts <= t.at && (t.at == cuts ==> !t.colon) && e <= |line|
    && (End(t, |cuts|) == e || End(t, |cuts|) == Length(line) < e
        || (e < End(t, |cuts|) <= Length(line) && Blank(line, e, End(t, |cuts|))))
  }

  lemma NextWord(line: string, i: nat, cuts: seq<nat>, ws: seq<string>)
    requires ws != [] && AllWords(ws) && i <= Length(line) && line[i..] == Spaced(ws) && |cuts| + 1 < LIMIT
    ensures Comes(Scan(line, i, cuts), line, cuts, i + |ws[0]|)
  {
    hide *;
    OverFirst(line, i, cuts, ws);
    if i + |ws[0]| >= Length(line) {
      AtLength(line, cuts, i + |ws[0]|);
    } else {
      AtSpace(line, i + |ws[0]|, cuts, ws[1..]);
      SpaceComes(line, cuts, i + |ws[0]|);
    }
  }

  lemma AtLength(line: string, cuts: seq<nat>, e: nat)
    requires Length(line) <= e <= |line|
    ensures Comes(Scan(line, Length(line), cuts), line, cuts, e)
  {
    hide Scan;
    ScanStep(line, Length(line), cuts);
  }

  lemma SpaceComes(line: string, cuts: seq<nat>, e: nat)
    requires e < Length(line)
    requires var t := Scan(line, e, cuts);
            cuts <= t.at && (t.at == cuts ==> !t.colon)
            && (End(t, |cuts|) == e
                || (e < End(t, |cuts|) <= Length(line) && Blank(line, e, End(t, |cuts|))))
    ensures Comes(Scan(line, e, cuts), line, cuts, e)
  {
    hide Scan;
  }

  // The scan passes over the first word.
  lemma OverFirst(line: string, i: nat, cuts: seq<nat>, ws: seq<string>)
    requires ws != [] && AllWords(ws) && i <= Length(line) && line[i..] == Spaced(ws)
    ensures var e := i + |ws[0]|;
            e <= |line| && (e >= Length(line) ==> Scan(line, i, cuts) == Scan(line, Length(line), cuts))
            && (e < Length(line) ==>
                  Scan(line, i, cuts) == Scan(line, e, cuts) && |ws| > 1 && line[e] == ' '
                  && line[e + 1..] == Spaced(ws[1..]) && AllWords(ws[1..]))
  {
    hide Spaced, AllWords, Find, Has, Scan;
    FirstWord(line, i, ws);
    var e := i + |ws[0]|;
    ScanOver(line, i, if e >= Length(line) then Length(line) else e, cuts);
  }

  predicate Ending(t: Cuts, line: string, n: nat, e: nat) {
    End(t, n) == e || End(t, n) == Length(line) < e
    || (e < End(t, n) <= Length(line) && Blank(line, e, End(t, n)))
  }

  predicate PartIs(line: string, s: nat, w: string) {
    s + |w| <= |line| && line[s..s + |w|] == w
  }

  // Where the word behind the heading starts and ends in the buffer.
  lemma CutBehind(line: string, head: seq<string>, rest: seq<string>)
    requires Heading(head) && rest != [] && AllWords(rest) && Plain(rest[0]) && head != []
    requires line == Spaced(head + rest) && Room(head) + 1 < SIZE && |head| + 1 < LIMIT
    ensures var t := Cut(line);
            |head| <= |t.at| && Start(t, |head|) == Room(head) < Length(line) && PartIs(line, Room(head), rest[0])
            && Ending(t, line, |head|, Room(head) + |rest[0]|)
  {
    hide *;
    RoomBefore(line, head, rest);
    WholeLine(line);
    var more := SkipHead(line, 0, [], head, rest);
    FromStart(line, more, Room(head));
    NextWord(line, Room(head), more, rest);
    PartBehind(line, Room(head), rest);
    ComesBehind(Cut(line), line, more, Room(head) + |rest[0]|);
  }

  lemma RoomBefore(line: string, head: seq<string>, rest: seq<string>)
    requires rest != [] && Plain(rest[0]) && line == Spaced(head + rest) && Room(head) + 1 < SIZE
    ensures Room(head) < Length(line) <= |line|
  {
    SpacedSize(head, rest);
  }

  lemma WholeLine(line: string)
    ensures line[0..] == line
  {
  }

  lemma FromStart(line: string, more: seq<nat>, s: nat)
    requires s <= Length(line) && Scan(line, 0, []) == Scan(line, s, [] + more)
    ensures Cut(line) == Scan(line, s, more)
  {
    assert [] + more == more;
  }

  lemma PartBehind(line: string, s: nat, rest: seq<string>)
    requires rest != [] && AllWords(rest) && s <= |line| && line[s..] == Spaced(rest)
    ensures PartIs(line, s, rest[0])
  {
    FirstWord(line, s, rest);
  }

  lemma ComesBehind(t: Cuts, line: string, more: seq<nat>, e: nat)
    requires Comes(t, line, more, e) && more != []
    ensures |more| <= |t.at| && Start(t, |more|) == more[|more| - 1] + 1 && Ending(t, line, |more|, e)
  {
    hide Blank;
    if |t.at| == |more| {
      assert t.at == more;
    }
  }

  // A word as it is, cut short, or with spaces after it.
  predicate ComesBack(a: string, w: string) {
    a == w || (a != [] && a < w) || (|a| > |w| && w < a && forall j :: |w| <= j < |a| ==> a[j] == ' ')
  }

  // The argument that the word behind the heading comes back as.
  lemma ArgBehind(line: string, head: seq<string>, rest: seq<string>)
    requires Heading(head) && rest != [] && AllWords(rest) && Plain(rest[0]) && head != []
    requires line == Spaced(head + rest) && Room(head) + 1 < SIZE && |head| + 1 < LIMIT
    ensures |Args(line)| > |head|
    ensures ComesBack(Args(line)[|head|], rest[0])
  {
    hide *;
    HeadingWords(head, rest);
    SpacedWord(head + rest);
    PlainIs(rest[0]);
    CutBehind(line, head, rest);
    CutIsGood(line);
    PartBounds(line, Cut(line), |head|, rest[0]);
    ArgSlice(line, |head|);
    EndingMeans(line, Cut(line), |head|, Room(head) + |rest[0]|);
    PartOfLine(line, Room(head), End(Cut(line), |head|), rest[0], Length(line));
  }

  lemma ArgSlice(line: string, k: nat)
    requires !Has(line, NUL) && Good(line, Cut(line), Length(line)) && k <= |Cut(line).at|
    requires Start(Cut(line), k) <= End(Cut(line), k) && Start(Cut(line), k) <= SIZE
    ensures |Args(line)| > k && End(Cut(line), k) <= |line|
    ensures Args(line)[k] == line[Start(Cut(line), k)..End(Cut(line), k)]
  {
    hide *;
    TokenOf(line, Cut(line), k);
    ArgIs(line, k);
  }

  lemma EndingMeans(line: string, t: Cuts, n: nat, e: nat)
    requires Ending(t, line, n, e)
    ensures End(t, n) == e || End(t, n) == Length(line) < e
            || (e < End(t, n) <= Length(line) && Blank(line, e, End(t, n)))
  {
  }

  lemma PartBounds(line: string, t: Cuts, n: nat, w: string)
    requires n <= |t.at| && Start(t, n) < Length(line) && Ending(t, line, n, Start(t, n) + |w|)
    ensures Start(t, n) <= End(t, n) && Start(t, n) <= SIZE
  {
    hide Blank;
  }

  lemma PartOfLine(line: string, s: nat, q: nat, w: string, n: nat)
    requires s < n == Length(line) && s <= q <= |line| && w != [] && PartIs(line, s, w)
    requires q == s + |w| || q == n < s + |w| || (s + |w| < q <= n && Blank(line, s + |w|, q))
    ensures ComesBack(line[s..q], w)
  {
    if q < s + |w| {
      assert line[s..q] == line[s..s + |w|][..q - s];
    } else {
      assert line[s..q][..|w|] == line[s..s + |w|];
      assert forall j :: |w| <= j < q - s ==> line[s..q][j] == line[s + j];
    }
  }

  lemma PlainIs(w: string)
    requires Plain(w)
    ensures w != [] && w[0] != ':'
  {
  }

  lemma HeadingWords(head: seq<string>, rest: seq<string>)
    requires Heading(head) && AllWords(rest)
    ensures AllWords(head + rest)
  {
  }

  lemma {:induction false} SpacedSize(head: seq<string>, rest: seq<string>)
    requires rest != []
    ensures |Spaced(head + rest)| == Room(head) + |Spaced(rest)| && (rest[0] != [] ==> |Spaced(rest)| > 0)
  {
    if head == [] {
      assert head + rest == rest;
    } else {
      assert (head + rest)[1..] == head[1..] + rest;
      SpacedSize(head[1..], rest);
    }
  }

  // ---- Only the first 512 characters matter -----------------------------------------------

  lemma {:induction false} ScanAgrees(a: string, b: string, i: nat, cuts: seq<nat>)
    requires |a| >= SIZE && |b| >= SIZE && a[..SIZE] == b[..SIZE] && i < SIZE
    ensures Scan(a, i, cuts) == Scan(b, i, cuts)
    decreases SIZE - i
  {
    hide Scan;
    ScanStep(a, i, cuts);
    ScanStep(b, i, cuts);
    if i + 1 < SIZE {
      assert a[i] == a[..SIZE][i] == b[i] && a[i + 1] == a[..SIZE][i + 1] == b[i + 1];
      ScanAgrees(a, b, i + 1, cuts);
      ScanAgrees(a, b, i + 1, cuts + [i]);
    }
  }

  lemma ArgsAgree(a: string, b: string)
    requires |a| >= SIZE && |b| >= SIZE && a[..SIZE] == b[..SIZE]
    ensures Args(a) == Args(b)
  {
    hide Scan, Token;
    ScanAgrees(a, b, 0, []);
    var t := Cut(a);
    assert Memory(a, t) == Memory(b, t) by {
      assert forall j :: 0 <= j < SIZE ==> a[j] == a[..SIZE][j] == b[j];
    }
  }
}
