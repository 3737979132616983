// src/utility.cpp: ArgTokenize2 as a loop, ArgCount, and ArgRejoinArray, which turns the
// cuts after an argument back into spaces.
module Rejoin {
  import opened Basics
  import opened ISupport
  import opened Tokens

  // ---- Tokenizing --------------------------------------------------------------------------

  lemma CutMore(line: string, cuts: seq<nat>, i: nat, colon: bool, end: nat)
    requires end == Length(line)
    ensures Memory(line, Cuts(cuts + [i], colon, end))
         == if i < SIZE then Memory(line, Cuts(cuts, false, end))[i := NUL] else Memory(line, Cuts(cuts, false, end))
    ensures Starts(Cuts(cuts + [i], colon, end))
         == Starts(Cuts(cuts, false, end)) + [if colon then i + 2 else i + 1]
  {
    var t, t' := Cuts(cuts, false, end), Cuts(cuts + [i], colon, end);
    forall j
      ensures IsCut(t'.at, j) <==> IsCut(t.at, j) || j == i
    {
      if IsCut(t.at, j) {
        var k :| 0 <= k < |t.at| && t.at[k] == j;
        assert t'.at[k] == j;
      }
      assert t'.at[|cuts|] == i;
    }
  }

  lemma CutEnd(line: string, cuts: seq<nat>, i: nat)
    requires i + 1 == |line| < SIZE
    ensures Memory(line, Cuts(cuts, false, i)) == Memory(line, Cuts(cuts, false, |line|))[i := NUL]
    ensures Starts(Cuts(cuts, false, i)) == Starts(Cuts(cuts, false, |line|))
  {
    hide IsCut;
  }

  lemma CutNone(line: string)
    ensures Memory(line, Cuts([], false, Length(line)))
         == seq(SIZE, j requires 0 <= j < SIZE => if j < Length(line) then line[j] else NUL)
    ensures Starts(Cuts([], false, Length(line))) == [0]
  {
  }

  method ArgTokenize2(line: string) returns (count: nat, pointers: seq<nat>, text: seq<char>)
    requires !Has(line, NUL)
    ensures text == Memory(line, Cut(line)) && pointers == Starts(Cut(line)) && count == |pointers| <= LIMIT
  {
    hide Memory, Starts, Has, Scan, Good;
    var length := Length(line);
    text := seq(SIZE, j requires 0 <= j < SIZE => if j < length then line[j] else NUL);
    pointers, count := [0], 1;
    ghost var cuts: seq<nat> := [];
    CutNone(line);
    var i: nat := 0;
    while i < length
      invariant i <= length && |cuts| + 1 == count == |pointers| < LIMIT
      invariant Scan(line, i, cuts) == Cut(line) && |text| == SIZE
      invariant text == Memory(line, Cuts(cuts, false, length)) && pointers == Starts(Cuts(cuts, false, length))
    {
      ScanStep(line, i, cuts);
      if line[i] == ' ' && Peek(line, i + 1) != ' ' {
        if Peek(line, i + 1) == NUL {
          NoNulAt(line, i + 1);
          CutEnd(line, cuts, i);
          text := text[i := NUL];
          return;
        }
        text, pointers, count := text[i := NUL], pointers + [i + 1], count + 1;
        if count >= LIMIT {
          CutMore(line, cuts, i, false, length);
          return;
        }
        if line[i + 1] == ':' {
          CutMore(line, cuts, i, true, length);
          pointers := pointers[count - 1 := pointers[count - 1] + 1];
          return;
        }
        CutMore(line, cuts, i, false, length);
        cuts := cuts + [i];
      }
      i := i + 1;
    }
    ScanStep(line, i, cuts);
  }

  lemma ScanStep(line: string, i: nat, cuts: seq<nat>)
    requires i <= Length(line)
    ensures Scan(line, i, cuts)
         == if i == Length(line) then Cuts(cuts, false, i)
            else if line[i] != ' ' || Peek(line, i + 1) == ' ' then Scan(line, i + 1, cuts)
            else if Peek(line, i + 1) == NUL then Cuts(cuts, false, i)
            else if |cuts| + 2 >= LIMIT then Cuts(cuts + [i], false, Length(line))
            else if line[i + 1] == ':' then Cuts(cuts + [i], true, Length(line))
            else Scan(line, i + 1, cuts + [i])
  {
  }

  // ---- Counting ----------------------------------------------------------------------------

  // Past the string at p and its NUL; past the end of the buffer when it has none.
  function After(mem: seq<char>, p: nat): (q: nat)
    requires p <= |mem|
    ensures q > p
  {
    p + Find(mem[p..], NUL) + 1
  }

  // The walk from p over one string after the other reads inside the buffer only.
  predicate Walks(mem: seq<char>, p: nat)
    requires p <= |mem|
    decreases |mem| - p
  {
    After(mem, p) < |mem| && (mem[After(mem, p)] == NUL || Walks(mem, After(mem, p)))
  }

  function CountFrom(mem: seq<char>, p: nat): nat
    requires p <= |mem| && Walks(mem, p)
    decreases |mem| - p
  {
    if mem[After(mem, p)] == NUL then 1 else 1 + CountFrom(mem, After(mem, p))
  }

  // No count when the walk leaves the buffer.
  method ArgCount(mem: seq<char>, p: nat) returns (count: Option<nat>)
    requires p <= |mem|
    ensures count == if Walks(mem, p) then Some(CountFrom(mem, p)) else None
  {
    var args, n: nat := p, 0;
    while true
      invariant args <= |mem| && (Walks(mem, args) <==> Walks(mem, p))
      invariant Walks(mem, p) ==> n + CountFrom(mem, args) == CountFrom(mem, p)
      decreases |mem| - args
    {
      args := After(mem, args);
      if args >= |mem| {
        return None;
      }
      n := n + 1;
      if mem[args] == NUL {
        return Some(n);
      }
    }
  }

  // The buffer ends in two NULs.
  predicate Closed(mem: seq<char>) {
    |mem| >= 2 && mem[|mem| - 1] == NUL && mem[|mem| - 2] == NUL
  }

  lemma AfterReaches(mem: seq<char>, p: nat, q: nat)
    requires p <= q < |mem| && mem[q] == NUL
    ensures After(mem, p) <= q + 1 && mem[After(mem, p) - 1] == NUL
    ensures forall j :: p <= j < After(mem, p) - 1 ==> mem[j] != NUL
  {
    var rest := mem[p..];
    assert rest[q - p] == NUL && forall i :: 0 <= i < |rest| ==> rest[i] == mem[p + i];
    assert forall j :: p <= j < After(mem, p) - 1 ==> mem[j] == rest[j - p];
  }

  lemma {:induction false} ClosedWalks(mem: seq<char>, p: nat)
    requires Closed(mem) && p + 2 <= |mem|
    ensures Walks(mem, p)
    decreases |mem| - p
  {
    AfterReaches(mem, p, |mem| - 2);
    var q := After(mem, p);
    if mem[q] != NUL {
      ClosedWalks(mem, q);
    }
  }

  // Without them, and with no two NULs side by side before, every walk leaves the buffer.
  lemma {:induction false} OpenOverruns(mem: seq<char>, p: nat)
    requires |mem| >= 2 && mem[|mem| - 1] == NUL && mem[|mem| - 2] != NUL && p + 2 <= |mem|
    requires forall j :: 0 <= j < |mem| - 2 && mem[j] == NUL ==> mem[j + 1] != NUL
    ensures !Walks(mem, p)
    decreases |mem| - p
  {
    AfterReaches(mem, p, |mem| - 1);
    var q := After(mem, p);
    if q < |mem| {
      assert q - 1 < |mem| - 2;
      OpenOverruns(mem, q);
    }
  }

  // For every line, of any length: the walk over its tokens stays inside the buffer exactly
  // when the text leaves two bytes of it, or the last character but one was cut.
  lemma WalksExactly(line: string, p: nat)
    requires !Has(line, NUL) && p + 2 <= SIZE
    ensures var (t, mem) := (Cut(line), Memory(line, Cut(line)));
            |mem| == 512 && (Walks(mem, p) <==> t.end <= 510 || IsCut(t.at, 510))
  {
    hide Walks, Has, Good, Scan;
    var t, mem := Cut(line), Memory(line, Cut(line));
    CutIsGood(line);
    ClosedExactly(line, t);
    if Closed(mem) {
      ClosedWalks(mem, p);
    } else {
      forall j | 0 <= j < SIZE - 2 && mem[j] == NUL
        ensures mem[j + 1] != NUL
      {
        CutStandsAlone(line, t, j);
      }
      OpenOverruns(mem, p);
    }
  }

  lemma ClosedExactly(line: string, t: Cuts)
    requires !Has(line, NUL) && Good(line, t, Length(line))
    ensures |Memory(line, t)| == SIZE && Memory(line, t)[SIZE - 1] == NUL && t.end < SIZE
    ensures Closed(Memory(line, t)) <==> t.end + 2 <= SIZE || IsCut(t.at, SIZE - 2)
  {
    NoNulAt(line, SIZE - 2);
  }

  // In a full buffer every NUL is a cut, and what follows a cut is not NUL.
  lemma CutStandsAlone(line: string, t: Cuts, j: nat)
    requires !Has(line, NUL) && Good(line, t, Length(line)) && t.end + 2 > SIZE
    requires j < SIZE - 2 && Memory(line, t)[j] == NUL
    ensures Memory(line, t)[j + 1] != NUL
  {
    hide Has;
    NoNulAt(line, j);
    assert IsCut(t.at, j);
    assert line[j + 1] != ' ' && line[j + 1] != NUL;
    assert !IsCut(t.at, j + 1);
  }

  // A full line without spaces overruns the buffer.
  lemma FullLineOverruns(line: string)
    requires !Has(line, NUL) && !Has(line, ' ') && |line| >= SIZE - 1
    ensures var mem := Memory(line, Cut(line)); |mem| == SIZE && !Walks(mem, 0)
  {
    hide Walks, Has;
    WalksExactly(line, 0);
    NothingCut(line, 0);
  }

  lemma {:induction false} NothingCut(line: string, i: nat)
    requires !Has(line, ' ') && i <= Length(line)
    ensures Scan(line, i, []) == Cuts([], false, Length(line))
    decreases Length(line) - i
  {
    if i < Length(line) {
      assert line[i] != ' ';
      NothingCut(line, i + 1);
    }
  }

  // One of 511 bytes.
  lemma OverrunExists()
    ensures var line := seq(SIZE - 1, _ => 'x');
            Line(line) && |Memory(line, Cut(line))| == SIZE && !Walks(Memory(line, Cut(line)), 0)
  {
    var line := seq(SIZE - 1, _ => 'x');
    assert !Has(line, NUL) && !Has(line, ' ');
    FullLineOverruns(line);
  }

  // Counting from a token finds it and those after it.
  lemma {:induction false} CountIs(line: string, t: Cuts, k: nat)
    requires Line(line) && Good(line, t, |line|) && k <= |t.at| && t.end + 2 <= SIZE
    ensures |Memory(line, t)| == SIZE && Block(t, k) <= SIZE && Walks(Memory(line, t), Block(t, k))
    ensures CountFrom(Memory(line, t), Block(t, k)) == |t.at| + 1 - k
    decreases |t.at| - k
  {
    hide Memory, Good, Line, Find, After;
    MemorySize(line, t);
    AfterBlock(line, t, k);
    if k < |t.at| {
      CountIs(line, t, k + 1);
    }
  }

  // Where the string of token k starts: at the colon, if there is one.
  function Block(t: Cuts, k: nat): nat
    requires k <= |t.at|
  {
    if k == 0 then 0 else t.at[k - 1] + 1
  }

  lemma AfterBlock(line: string, t: Cuts, k: nat)
    requires Line(line) && Good(line, t, |line|) && k <= |t.at| && t.end + 2 <= SIZE
    ensures Block(t, k) + 2 <= SIZE && |Memory(line, t)| == SIZE && End(t, k) + 1 < SIZE
    ensures After(Memory(line, t), Block(t, k)) == End(t, k) + 1
    ensures Memory(line, t)[End(t, k) + 1] == NUL <==> k == |t.at|
  {
    hide Memory, Find, Has;
    var mem := Memory(line, t);
    MemorySize(line, t);
    StartsInOrder(line, t, k);
    LineFits(line);
    forall j | Block(t, k) <= j <= End(t, k)
      ensures mem[j] == NUL <==> j == End(t, k)
    {
      if j < Start(t, k) {
        ColonStays(line, t);
      } else {
        MemoryAt(line, t, k, j);
      }
    }
    AfterReaches(mem, Block(t, k), End(t, k));
    if k < |t.at| {
      AfterCut(line, t, k);
    } else {
      AfterEnd(line, t);
    }
  }

  lemma AfterCut(line: string, t: Cuts, k: nat)
    requires Line(line) && Good(line, t, |line|) && k < |t.at|
    ensures t.at[k] + 1 < SIZE && Memory(line, t)[t.at[k] + 1] != NUL
  {
    hide Memory, Find, Has;
    StartsInOrder(line, t, k + 1);
    LineFits(line);
    if t.colon && k + 1 == |t.at| {
      ColonStays(line, t);
    } else {
      MemoryAt(line, t, k + 1, t.at[k] + 1);
    }
  }

  lemma AfterEnd(line: string, t: Cuts)
    requires t.end + 2 <= SIZE
    ensures Memory(line, t)[t.end + 1] == NUL
  {
  }

  // ---- Rejoining ---------------------------------------------------------------------------

  predicate Quoted(mem: seq<char>, p: nat)
    requires 0 < p <= |mem|
  {
    Has(Token(mem, p), ' ') || mem[p - 1] == ':'
  }

  // The characters before an argument that has a space or a colon in front become " :".
  function Step(mem: seq<char>, p: nat): seq<char>
    requires 0 < p < |mem|
  {
    if !Quoted(mem, p) then mem[p - 1 := ' ']
    else if p == 1 then mem[0 := ':']
    else mem[p - 1 := ':'][p - 2 := ' ']
  }

  // One turn touches the character before the argument, and the one before that if the
  // argument has a space in it or a colon before it.
  lemma StepMeans(mem: seq<char>, p: nat)
    requires 1 < p < |mem|
    ensures var quoted := mem[p - 1] == ':' || exists j :: p <= j < |mem| && mem[j] == ' ' && forall i :: p <= i < j ==> mem[i] != NUL;
            |Step(mem, p)| == |mem| && Step(mem, p)[p - 1] == (if quoted then ':' else ' ')
            && (quoted ==> Step(mem, p)[p - 2] == ' ')
            && forall i :: 0 <= i < |mem| && i != p - 1 && (quoted ==> i != p - 2) ==> Step(mem, p)[i] == mem[i]
  {
    var s, n := mem[p..], Find(mem[p..], NUL);
    var t := Token(mem, p);
    assert forall i :: 0 <= i < |s| ==> s[i] == mem[p + i];
    assert forall i :: 0 <= i < n ==> t[i] == mem[p + i];
    if Has(t, ' ') {
      var k := Find(t, ' ');
      assert mem[p + k] == ' ' && forall i :: p <= i < p + k ==> mem[i] == s[i - p];
    }
    if j :| p <= j < |mem| && mem[j] == ' ' && forall i :: p <= i < j ==> mem[i] != NUL {
      assert s[j - p] == ' ';
      assert n < |s| ==> mem[p + n] == NUL;
      assert t[j - p] == ' ';
    }
  }

  predicate Inside(mem: seq<char>, argv: seq<nat>) {
    forall i :: 0 < i < |argv| ==> 0 < argv[i] < |mem|
  }

  function Steps(mem: seq<char>, argv: seq<nat>, i: nat): seq<char>
    requires 0 < i && Inside(mem, argv)
    decreases |argv| - i
  {
    if i >= |argv| then mem else Steps(Step(mem, argv[i]), argv, i + 1)
  }

  // The first step would store before the buffer: an argument at offset 1 gets a colon there.
  predicate StoresBefore(mem: seq<char>, argv: seq<nat>, index: nat)
    requires Inside(mem, argv)
  {
    index == 0 && |argv| > 1 && argv[1] == 1 && Quoted(mem, 1)
  }

  // Reports whether all reads and stores are inside the buffer. The one store that may not
  // be is left out here.
  method ArgRejoinArray(text: array<char>, argv: seq<nat>, index: nat) returns (inside: bool)
    requires argv != [] && argv[0] <= text.Length
    requires Walks(text[..], argv[0]) ==>
               var count := CountFrom(text[..], argv[0]);
               count <= |argv| && Inside(text[..], argv[..count]) && forall i :: 1 < i < count ==> argv[i] > 1
    modifies text
    ensures !old(Walks(text[..], argv[0])) ==> !inside && text[..] == old(text[..])
    ensures old(Walks(text[..], argv[0])) ==>
              var args := argv[..old(CountFrom(text[..], argv[0]))];
              text[..] == Steps(old(text[..]), args, index + 1) && (inside <==> !StoresBefore(old(text[..]), args, index))
  {
    hide Walks, CountFrom, Quoted, Token, Has, Step, Steps;
    var counted := ArgCount(text[..], argv[0]);
    if counted == None {
      return false;
    }
    var count := counted.value;
    ghost var first, args := text[..], argv[..count];
    StepsEnd(first, args, index + 1);
    inside := true;
    if count <= index + 1 {
      return;
    }
    var i: nat := index + 1;
    while i < count
      invariant index < i <= count && Inside(text[..], args)
      invariant i == index + 1 ==> text[..] == first && inside
      invariant i > index + 1 ==> (inside <==> !StoresBefore(first, args, index))
      invariant Steps(text[..], args, i) == Steps(first, args, index + 1)
    {
      StepsFront(text[..], args, i);
      var stored := RejoinOne(text, argv[i]);
      inside := inside && stored;
      i := i + 1;
    }
    StepsEnd(text[..], args, i);
  }

  method RejoinOne(text: array<char>, p: nat) returns (inside: bool)
    requires 0 < p < text.Length
    modifies text
    ensures text[..] == Step(old(text[..]), p) && (inside <==> p > 1 || !Quoted(old(text[..]), p))
  {
    hide Token, Has;
    inside := true;
    if Has(Token(text[..], p), ' ') || text[p - 1] == ':' {
      text[p - 1] := ':';
      if p >= 2 {
        text[p - 2] := ' ';
      } else {
        inside := false;
      }
    } else {
      text[p - 1] := ' ';
    }
  }

  lemma StepsFront(mem: seq<char>, argv: seq<nat>, i: nat)
    requires 0 < i < |argv| && Inside(mem, argv)
    ensures |Step(mem, argv[i])| == |mem| && Steps(mem, argv, i) == Steps(Step(mem, argv[i]), argv, i + 1)
  {
  }

  lemma StepsEnd(mem: seq<char>, argv: seq<nat>, i: nat)
    requires 0 < i && Inside(mem, argv)
    ensures i >= |argv| ==> Steps(mem, argv, i) == mem
  {
  }

  // A token that rejoining gives back as it was: the one after the colon, or one without spaces.
  predicate Simple(line: string, t: Cuts, k: nat)
    requires k <= |t.at|
  {
    (t.colon && k == |t.at|) || (Start(t, k) <= End(t, k) <= |line| && !Has(line[Start(t, k)..End(t, k)], ' '))
  }

  // The buffer once the cuts from token index up to token i have been filled again.
  function Filled(line: string, t: Cuts, index: nat, i: nat): seq<char>
    requires index < i <= |t.at| + 1
  {
    seq(SIZE, j requires 0 <= j < SIZE =>
        if Start(t, index) <= j < End(t, i - 1) && j < |line| then line[j] else Memory(line, t)[j])
  }

  lemma FilledAt(line: string, t: Cuts, index: nat, i: nat, j: nat)
    requires Line(line) && Good(line, t, |line|) && index < i <= |t.at| + 1 && j < SIZE
    ensures |Filled(line, t, index, i)| == SIZE
    ensures Filled(line, t, index, i)[j]
         == if Start(t, index) <= j < End(t, i - 1) then line[j] else Memory(line, t)[j]
  {
    hide Memory, Has;
    MemorySize(line, t);
    StartsInOrder(line, t, i - 1);
  }

  lemma FilledFirst(line: string, t: Cuts, index: nat)
    requires Line(line) && Good(line, t, |line|) && index <= |t.at|
    ensures Filled(line, t, index, index + 1) == Memory(line, t)
  {
    hide Memory, Good, Line, Filled;
    MemorySize(line, t);
    StartsInOrder(line, t, index);
    forall j | 0 <= j < SIZE
      ensures |Filled(line, t, index, index + 1)| == SIZE
      ensures Filled(line, t, index, index + 1)[j] == Memory(line, t)[j]
    {
      FilledAt(line, t, index, index + 1, j);
      if Start(t, index) <= j < End(t, index) {
        MemoryAt(line, t, index, j);
      }
    }
    LineFits(line);
    FilledAt(line, t, index, index + 1, 0);
  }

  lemma FilledToken(line: string, t: Cuts, index: nat, i: nat)
    requires Line(line) && Good(line, t, |line|) && index < i <= |t.at|
    ensures Start(t, i) <= End(t, i) <= |line| < |Filled(line, t, index, i)| == SIZE && Start(t, i) > 0
    ensures Token(Filled(line, t, index, i), Start(t, i)) == line[Start(t, i)..End(t, i)]
    ensures Filled(line, t, index, i)[Start(t, i) - 1] == Memory(line, t)[Start(t, i) - 1]
  {
    hide Memory, Good, Line, Filled, Token, Find;
    var m := Filled(line, t, index, i);
    StartsInOrder(line, t, i);
    LineFits(line);
    MemorySize(line, t);
    forall j | Start(t, i) - 1 <= j <= End(t, i)
      ensures |m| == SIZE && m[j] == Memory(line, t)[j]
    {
      FilledAt(line, t, index, i, j);
    }
    FilledAt(line, t, index, i, 0);
    forall j | Start(t, i) <= j <= End(t, i)
      ensures m[j] == if j < End(t, i) then line[j] else NUL
    {
      MemoryAt(line, t, i, j);
    }
    TokenFrom(line, m, Start(t, i), End(t, i));
  }

  // What one turn of the loop finds.
  lemma QuotedWhen(line: string, t: Cuts, index: nat, i: nat)
    requires Line(line) && Good(line, t, |line|) && index < i <= |t.at|
    ensures 0 < Start(t, i) < |Filled(line, t, index, i)| == SIZE
    ensures var colon := t.colon && i == |t.at|;
            Quoted(Filled(line, t, index, i), Start(t, i)) <==> colon || !Simple(line, t, i)
  {
    hide Memory, Good, Line, Filled, Token, Find, Has;
    FilledToken(line, t, index, i);
    Separator(line, t, i - 1);
  }

  lemma StepFills(line: string, t: Cuts, index: nat, i: nat)
    requires Line(line) && Good(line, t, |line|) && index < i <= |t.at| && Simple(line, t, i)
    ensures 0 < Start(t, i) < |Filled(line, t, index, i)| == SIZE
    ensures Step(Filled(line, t, index, i), Start(t, i)) == Filled(line, t, index, i + 1)
  {
    hide Memory, Line, Filled, Quoted, Simple, Has, Find;
    var m, m', p := Filled(line, t, index, i), Filled(line, t, index, i + 1), Start(t, i);
    QuotedWhen(line, t, index, i);
    StartsInOrder(line, t, i);
    LineFits(line);
    FilledAt(line, t, index, i + 1, 0);
    forall j | 0 <= j < SIZE
      ensures Step(m, p)[j] == m'[j]
    {
      FilledAt(line, t, index, i, j);
      FilledAt(line, t, index, i + 1, j);
      if p <= j < End(t, i) {
        MemoryAt(line, t, i, j);
      } else if t.at[i - 1] < j < p {
        ColonStays(line, t);
      }
    }
  }

  lemma {:induction false} StepsFill(line: string, t: Cuts, index: nat, i: nat, n: nat)
    requires Line(line) && Good(line, t, |line|) && index < i <= n <= |t.at| + 1
    requires forall k :: i <= k < n ==> Simple(line, t, k)
    ensures Inside(Filled(line, t, index, i), Starts(t)) && Inside(Filled(line, t, index, n), Starts(t))
    ensures Steps(Filled(line, t, index, i), Starts(t), i) == Steps(Filled(line, t, index, n), Starts(t), n)
    decreases n - i
  {
    hide Good, Line, Filled, Simple, Step, Steps;
    AllInside(line, t, index, i);
    AllInside(line, t, index, n);
    if i < n {
      StepFills(line, t, index, i);
      StepsFront(Filled(line, t, index, i), Starts(t), i);
      StepsFill(line, t, index, i + 1, n);
    }
  }

  lemma AllInside(line: string, t: Cuts, index: nat, i: nat)
    requires Line(line) && Good(line, t, |line|) && index < i <= |t.at| + 1
    ensures |Filled(line, t, index, i)| == SIZE
    ensures forall m :: |m| == SIZE ==> Inside(m, Starts(t))
  {
    hide Good, Line, Filled;
    FilledAt(line, t, index, i, 0);
    LineFits(line);
    forall k | 0 < k <= |t.at|
      ensures 0 < Start(t, k) < SIZE
    {
      StartsInOrder(line, t, k);
    }
  }

  lemma {:induction false} StepsLeave(mem: seq<char>, argv: seq<nat>, i: nat, j: nat)
    requires 0 < i && Inside(mem, argv) && j < |mem|
    requires forall k :: i <= k < |argv| ==> argv[k] > j + 2
    ensures |Steps(mem, argv, i)| == |mem| && Steps(mem, argv, i)[j] == mem[j]
    decreases |argv| - i
  {
    hide Quoted;
    if i < |argv| {
      StepsLeave(Step(mem, argv[i]), argv, i + 1, j);
    }
  }

  lemma FilledWhole(line: string, t: Cuts, index: nat)
    requires Line(line) && Good(line, t, |line|) && index <= |t.at|
    ensures Start(t, index) <= t.end <= |line| < |Filled(line, t, index, |t.at| + 1)|
    ensures Token(Filled(line, t, index, |t.at| + 1), Start(t, index)) == line[Start(t, index)..t.end]
  {
    hide Memory, Good, Line, Filled, Token, Find;
    var m := Filled(line, t, index, |t.at| + 1);
    StartsInOrder(line, t, index);
    StartsInOrder(line, t, |t.at|);
    LineFits(line);
    forall j | Start(t, index) <= j <= t.end
      ensures |m| == SIZE && m[j] == if j < t.end then line[j] else NUL
    {
      FilledAt(line, t, index, |t.at| + 1, j);
      if j == t.end {
        MemoryAt(line, t, |t.at|, j);
      }
    }
    FilledAt(line, t, index, |t.at| + 1, t.end);
    TokenFrom(line, m, Start(t, index), t.end);
  }

  lemma SpoiledSpace(line: string, t: Cuts, index: nat, i: nat)
    requires Line(line) && Good(line, t, |line|) && index < i <= |t.at| && !(t.colon && i == |t.at|)
    ensures Start(t, index) <= Start(t, i) - 1 < t.end <= |line| && line[Start(t, i) - 1] == ' '
  {
    hide Line;
    StartsInOrder(line, t, i);
    StartsInOrder(line, t, index);
    assert index > 0 ==> t.at[index - 1] < t.at[i - 1];
  }

  // A colon comes where the line has a space.
  lemma StepSpoils(line: string, t: Cuts, index: nat, i: nat)
    requires Line(line) && Good(line, t, |line|) && index < i <= |t.at| && !Simple(line, t, i)
    ensures var (m, argv, j) := (Filled(line, t, index, i), Starts(t), Start(t, i) - 1);
            Inside(m, argv) && Start(t, index) <= j < t.end <= |line| && line[j] == ' '
            && j < |Steps(m, argv, i)| && Steps(m, argv, i)[j] == ':'
  {
    hide Line, Filled, Steps, Quoted, Good, Memory;
    var m, argv, p := Filled(line, t, index, i), Starts(t), Start(t, i);
    AllInside(line, t, index, i);
    QuotedWhen(line, t, index, i);
    StepsFront(m, argv, i);
    StartsInOrder(line, t, i);
    StartsInOrder(line, t, index);
    assert Step(m, p)[p - 1] == ':';
    forall k | i + 1 <= k < |argv|
      ensures argv[k] > p + 1
    {
      LaterStart(line, t, i, k);
    }
    SpoiledSpace(line, t, index, i);
    StepsLeave(Step(m, p), argv, i + 1, p - 1);
  }

  lemma LaterStart(line: string, t: Cuts, i: nat, k: nat)
    requires Line(line) && Good(line, t, |line|) && 0 < i < k <= |t.at|
    ensures Start(t, k) > Start(t, i) + 1
  {
    StartsInOrder(line, t, i);
    assert t.at[k - 1] >= t.at[i];
    assert Start(t, i) < t.at[i];
  }

  lemma TokenReads(line: string, mem: seq<char>, p: nat, q: nat, j: nat)
    requires p <= j < q <= |line| && p <= |mem| && Token(mem, p) == line[p..q]
    ensures j < |mem| && mem[j] == line[j]
  {
    assert Token(mem, p)[j - p] == line[j];
    assert mem[p..][j - p] == mem[j];
  }

  // Rejoining gives the rest of the line from an argument on, in place, exactly when every
  // later argument but the one after a colon is free of spaces.
  lemma RejoinRestores(line: string, index: nat)
    requires Line(line) && index <= |Cut(line).at|
    ensures var t := Cut(line);
            Start(t, index) <= t.end <= |line| && Inside(Memory(line, t), Starts(t))
            && Start(t, index) <= |Steps(Memory(line, t), Starts(t), index + 1)|
            && (Token(Steps(Memory(line, t), Starts(t), index + 1), Start(t, index)) == line[Start(t, index)..t.end]
                <==> forall k :: index < k <= |t.at| ==> Simple(line, t, k))
  {
    hide *;
    var t := Cut(line);
    LineFits(line);
    CutIsGood(line);
    var n := |t.at| + 1;
    FilledFirst(line, t, index);
    AllInside(line, t, index, index + 1);
    FilledWhole(line, t, index);
    StartsFit(line, t);
    var argv, out := Starts(t), Steps(Memory(line, t), Starts(t), index + 1);
    if k :| index < k <= |t.at| && !Simple(line, t, k) {
      var i := FirstBad(line, t, index + 1, k);
      StepsFill(line, t, index, index + 1, i);
      StepSpoils(line, t, index, i);
      if Token(out, Start(t, index)) == line[Start(t, index)..t.end] {
        TokenReads(line, out, Start(t, index), t.end, Start(t, i) - 1);
      }
    } else {
      StepsFill(line, t, index, index + 1, n);
      StepsEnd(Filled(line, t, index, n), argv, n);
    }
  }

  // The first argument of a line that begins with a space, when it has a space itself.
  predicate SpacedFirst(line: string, t: Cuts) {
    t.at != [] && t.at[0] == 0 && !Simple(line, t, 1)
  }

  // What ArgRejoinArray relies on holds of every tokenized line, and where it goes astray.
  lemma Rejoinable(line: string, index: nat)
    requires Line(line) && index <= |Cut(line).at|
    ensures var (t, mem, argv) := (Cut(line), Memory(line, Cut(line)), Starts(Cut(line)));
            |mem| == SIZE && |argv| == |t.at| + 1 && argv[0] == 0 && Inside(mem, argv)
            && (Walks(mem, 0) <==> t.end + 2 <= SIZE) && (Walks(mem, 0) ==> CountFrom(mem, 0) == |argv|)
            && (forall i :: 1 < i < |argv| ==> argv[i] > 1)
            && (StoresBefore(mem, argv, index) <==> index == 0 && SpacedFirst(line, t))
  {
    hide Memory, Line, Quoted, CountFrom, Good, Scan, Walks, Find, Has;
    var t := Cut(line);
    LineFits(line);
    CutIsGood(line);
    WalksExactly(line, 0);
    LastIsNoCut(line, t);
    MemorySize(line, t);
    if t.end + 2 <= SIZE {
      CountIs(line, t, 0);
    }
    AllInside(line, t, 0, 1);
    forall i | 1 < i <= |t.at|
      ensures Start(t, i) > 1
    {
      StartsInOrder(line, t, i);
    }
    if t.at != [] {
      FilledFirst(line, t, 0);
      QuotedWhen(line, t, 0, 1);
    }
  }

  lemma LastIsNoCut(line: string, t: Cuts)
    requires Line(line) && Good(line, t, |line|)
    ensures !IsCut(t.at, SIZE - 2)
  {
  }

  // Both in sequence, on every line: inside the buffer unless the text fills it or the line
  // begins with a space and an argument with a space; then the rest of the line comes back
  // exactly when every later argument is simple.
  method TokenizeThenRejoin(line: string, index: nat) returns (inside: bool, rest: string)
    requires Line(line) && index <= |Cut(line).at|
    ensures var t := Cut(line);
            (inside <==> t.end + 2 <= SIZE && !(index == 0 && SpacedFirst(line, t)))
            && Start(t, index) <= t.end <= |line|
            && (inside ==> (rest == line[Start(t, index)..t.end] <==> forall k :: index < k <= |t.at| ==> Simple(line, t, k)))
  {
    hide *;
    LineFits(line);
    var count, pointers, text := ArgTokenize2(line);
    Rejoinable(line, index);
    RejoinRestores(line, index);
    CutIsGood(line);
    StartsFit(line, Cut(line));
    var buffer := new char[|text|](i requires 0 <= i < |text| => text[i]);
    assert buffer[..] == text && pointers[..count] == pointers;
    inside := ArgRejoinArray(buffer, pointers, index);
    rest := "";
    if inside {
      rest := Token(buffer[..], pointers[index]);
    }
  }

  // A line that begins with a space and an argument with a space.
  lemma StoreBeforeExists()
    ensures var line := " a  b"; Line(line) && SpacedFirst(line, Cut(line))
  {
    var line := " a  b";
    assert line == [' ', 'a', ' ', ' ', 'b'];
    ScanStep(line, 0, []);
    ScanStep(line, 1, [0]);
    ScanStep(line, 2, [0]);
    ScanStep(line, 3, [0]);
    ScanStep(line, 4, [0, 3]);
    ScanStep(line, 5, [0, 3]);
    assert [] + [0] == [0] && [0] + [3] == [0, 3];
    assert Cut(line) == Cuts([0, 3], false, 5);
    assert line[1..3] == ['a', ' '];
  }

  lemma EndsLate(line: string)
    requires Line(line)
    ensures Cut(line).end <= |line|
    ensures Cut(line).end == |line| || (Cut(line).end + 1 == |line| && line[Cut(line).end] == ' ')
  {
    CutIsGood(line);
  }

  lemma FirstBad(line: string, t: Cuts, i: nat, k: nat) returns (bad: nat)
    requires i <= k <= |t.at| && !Simple(line, t, k)
    ensures i <= bad <= k && !Simple(line, t, bad) && forall l :: i <= l < bad ==> Simple(line, t, l)
  {
    hide Simple;
    bad := i;
    while Simple(line, t, bad)
      invariant i <= bad <= k && forall l :: i <= l < bad ==> Simple(line, t, l)
      decreases k - bad
    {
      bad := bad + 1;
    }
  }

  // ---- When every argument is simple ----------------------------------------------------

  // Where the scan stopped cutting.
  function Reach(t: Cuts): nat {
    if t.colon && t.at != [] then t.at[|t.at| - 1] else t.end
  }

  // Every space before it that no other space follows was cut.
  predicate Complete(line: string, t: Cuts, reach: nat) {
    forall j :: 0 <= j < reach && j < |line| && line[j] == ' ' && Peek(line, j + 1) != ' ' ==> IsCut(t.at, j)
  }

  lemma CompleteMore(line: string, cuts: seq<nat>, i: nat, colon: bool, end: nat)
    requires Complete(line, Cuts(cuts, false, 0), i)
    ensures Complete(line, Cuts(cuts + [i], colon, end), i + 1)
  {
    forall j | IsCut(cuts, j)
      ensures IsCut(cuts + [i], j)
    {
      var k :| 0 <= k < |cuts| && cuts[k] == j;
      assert (cuts + [i])[k] == j;
    }
    assert (cuts + [i])[|cuts|] == i;
  }

  lemma {:induction false} ScanIsComplete(line: string, i: nat, cuts: seq<nat>)
    requires !Has(line, NUL) && i <= Length(line) && Complete(line, Cuts(cuts, false, 0), i)
    ensures var t := Scan(line, i, cuts);
            |t.at| + 1 < LIMIT ==> Complete(line, t, Reach(t))
    decreases Length(line) - i
  {
    hide Has, Complete;
    ScanStep(line, i, cuts);
    if i == Length(line) || (line[i] == ' ' && Peek(line, i + 1) == NUL) {
      CompleteSame(line, cuts, 0, i, i);
    } else if line[i] != ' ' || Peek(line, i + 1) == ' ' {
      CompleteNext(line, cuts, i);
      ScanIsComplete(line, i + 1, cuts);
    } else if line[i + 1] == ':' {
      CompleteMore(line, cuts, i, true, Length(line));
      CompleteLess(line, Cuts(cuts + [i], true, Length(line)), i + 1, i);
    } else if |cuts| + 2 < LIMIT {
      CompleteMore(line, cuts, i, false, 0);
      ScanIsComplete(line, i + 1, cuts + [i]);
    }
  }

  lemma CompleteSame(line: string, cuts: seq<nat>, end: nat, end': nat, reach: nat)
    requires Complete(line, Cuts(cuts, false, end), reach)
    ensures Complete(line, Cuts(cuts, false, end'), reach)
  {
  }

  lemma CompleteLess(line: string, t: Cuts, reach: nat, less: nat)
    requires Complete(line, t, reach) && less <= reach
    ensures Complete(line, t, less)
  {
  }

  lemma CompleteNext(line: string, cuts: seq<nat>, i: nat)
    requires i < |line| && (line[i] != ' ' || Peek(line, i + 1) == ' ') && Complete(line, Cuts(cuts, false, 0), i)
    ensures Complete(line, Cuts(cuts, false, 0), i + 1)
  {
  }

  // With fewer than 32 arguments and no doubled spaces before the one after the colon, all
  // of them are.
  lemma SingleSpacesAreSimple(line: string, k: nat)
    requires Line(line) && 0 < k <= |Cut(line).at| && |Cut(line).at| + 1 < LIMIT
    requires forall j :: 0 <= j < Reach(Cut(line)) && j < |line| && line[j] == ' ' ==> Peek(line, j + 1) != ' '
    ensures Simple(line, Cut(line), k)
  {
    hide Has, Scan, Complete, Memory;
    var t := Cut(line);
    CutIsGood(line);
    LineFits(line);
    CompleteNothing(line);
    ScanIsComplete(line, 0, []);
    StartsInOrder(line, t, k);
    if !(t.colon && k == |t.at|) {
      assert End(t, k) <= Reach(t);
      forall j | Start(t, k) <= j < End(t, k)
        ensures line[j] != ' '
      {
        NotCut(line, t, k, j);
        CompleteAt(line, t, Reach(t), j);
      }
      SpaceFreePart(line, Start(t, k), End(t, k));
    }
  }

  lemma CompleteNothing(line: string)
    ensures Complete(line, Cuts([], false, 0), 0)
  {
  }

  lemma CompleteAt(line: string, t: Cuts, reach: nat, j: nat)
    requires Complete(line, t, reach) && j < reach && j < |line|
    ensures line[j] == ' ' && Peek(line, j + 1) != ' ' ==> IsCut(t.at, j)
  {
  }

  lemma NotCut(line: string, t: Cuts, k: nat, j: nat)
    requires Good(line, t, |line|) && k <= |t.at| && Start(t, k) <= j < End(t, k)
    ensures !IsCut(t.at, j)
  {
    forall l | 0 <= l < |t.at|
      ensures t.at[l] != j
    {
      if l < k {
        assert t.at[l] <= t.at[k - 1];
      } else {
        assert t.at[l] >= End(t, k);
      }
    }
  }

  lemma SpaceFreePart(line: string, p: nat, q: nat)
    requires p <= q <= |line| && forall j :: p <= j < q ==> line[j] != ' '
    ensures !Has(line[p..q], ' ')
  {
    assert forall i :: 0 <= i < q - p ==> line[p..q][i] == line[p + i];
  }
}
