// src/utility.cpp: cutting a line into arguments in a buffer of 512 bytes, and putting the
// last of them together again where they lie.
module Tokens {
  import opened ISupport

  const SIZE: nat := 512
  const LIMIT: nat := 32

  // The spaces that were cut, whether the colon after the last one is skipped, and where
  // the text ends: before a final space when the loop came that far.
  datatype Cuts = Cuts(at: seq<nat>, colon: bool, end: nat)

  function Peek(line: string, i: nat): char {
    if i < |line| then line[i] else NUL
  }

  function Length(line: string): nat {
    if |line| < SIZE then |line| else SIZE - 1
  }

  function Scan(line: string, i: nat, cuts: seq<nat>): Cuts
    requires i <= Length(line)
    decreases Length(line) - i
  {
    if i == Length(line) then Cuts(cuts, false, i)
    else if line[i] != ' ' || Peek(line, i + 1) == ' ' then Scan(line, i + 1, cuts)
    else if Peek(line, i + 1) == NUL then Cuts(cuts, false, i)
    else if |cuts| + 2 >= LIMIT then Cuts(cuts + [i], false, Length(line))
    else if line[i + 1] == ':' then Cuts(cuts + [i], true, Length(line))
    else Scan(line, i + 1, cuts + [i])
  }

  function Cut(line: string): Cuts {
    Scan(line, 0, [])
  }

  // Where token k starts.
  function Start(t: Cuts, k: nat): nat
    requires k <= |t.at|
  {
    if k == 0 then 0 else t.at[k - 1] + (if t.colon && k == |t.at| then 2 else 1)
  }

  // Where it ends.
  function End(t: Cuts, k: nat): nat {
    if k < |t.at| then t.at[k] else t.end
  }

  function Starts(t: Cuts): seq<nat> {
    seq(|t.at| + 1, k requires 0 <= k <= |t.at| => Start(t, k))
  }

  predicate IsCut(at: seq<nat>, j: nat) {
    exists k :: 0 <= k < |at| && at[k] == j
  }

  // The buffer: the line with a NUL at every cut and from the end on.
  function Memory(line: string, t: Cuts): seq<char> {
    seq(SIZE, j requires 0 <= j < SIZE => if j < t.end && j < |line| && !IsCut(t.at, j) then line[j] else NUL)
  }

  // What the scan has done on its way.
  predicate Good(line: string, t: Cuts, i: nat) {
    i <= Length(line) && |t.at| < LIMIT
    && (forall k :: 0 <= k < |t.at| ==>
          t.at[k] < i && t.at[k] + 1 < |line| && line[t.at[k]] == ' '
          && line[t.at[k] + 1] != ' ' && line[t.at[k] + 1] != NUL)
    && (forall k, l :: 0 <= k < l < |t.at| ==> t.at[k] < t.at[l])
    && (t.colon ==> t.at != [] && line[t.at[|t.at| - 1] + 1] == ':')
    && (t.end == Length(line) || (t.end + 1 == |line| && t.end < i && line[t.end] == ' ' && !t.colon
                                  && forall k :: 0 <= k < |t.at| ==> t.at[k] < t.end))
  }

  lemma GoodLater(line: string, cuts: seq<nat>, i: nat)
    requires Good(line, Cuts(cuts, false, Length(line)), i) && i < Length(line)
    ensures Good(line, Cuts(cuts, false, Length(line)), i + 1)
  {
  }

  lemma GoodCut(line: string, cuts: seq<nat>, i: nat, colon: bool)
    requires Good(line, Cuts(cuts, false, Length(line)), i) && i < Length(line) && |cuts| + 1 < LIMIT
    requires i + 1 < |line| && line[i] == ' ' && line[i + 1] != ' ' && line[i + 1] != NUL && (colon ==> line[i + 1] == ':')
    ensures Good(line, Cuts(cuts + [i], colon, Length(line)), i + 1)
  {
  }

  lemma {:induction false} GoodWhole(line: string, t: Cuts, i: nat)
    requires Good(line, t, i)
    ensures Good(line, t, Length(line))
  {
  }

  lemma {:induction false} ScanIsGood(line: string, i: nat, cuts: seq<nat>)
    requires Good(line, Cuts(cuts, false, Length(line)), i) && |cuts| + 1 < LIMIT && !Has(line, NUL)
    ensures Good(line, Scan(line, i, cuts), Length(line))
    decreases Length(line) - i
  {
    hide Has, Find, Good;
    GoodBound(line, Cuts(cuts, false, Length(line)), i);
    NoNulAt(line, i + 1);
    if i == Length(line) {
    } else if line[i] != ' ' || Peek(line, i + 1) == ' ' {
      GoodLater(line, cuts, i);
      ScanIsGood(line, i + 1, cuts);
    } else if Peek(line, i + 1) != NUL {
      var colon := |cuts| + 2 < LIMIT && line[i + 1] == ':';
      GoodCut(line, cuts, i, colon);
      if |cuts| + 2 < LIMIT && !colon {
        ScanIsGood(line, i + 1, cuts + [i]);
      } else {
        GoodWhole(line, Cuts(cuts + [i], colon, Length(line)), i + 1);
      }
    } else {
      GoodEnd(line, cuts, i);
    }
  }

  lemma GoodBound(line: string, t: Cuts, i: nat)
    requires Good(line, t, i)
    ensures i <= Length(line)
  {
  }

  lemma GoodEnd(line: string, cuts: seq<nat>, i: nat)
    requires Good(line, Cuts(cuts, false, Length(line)), i) && i + 1 == |line| && i < Length(line) && line[i] == ' '
    ensures Good(line, Cuts(cuts, false, i), Length(line))
  {
  }

  lemma NoNulAt(line: string, i: nat)
    requires !Has(line, NUL)
    ensures Peek(line, i) == NUL ==> i >= |line|
  {
  }

  lemma CutIsGood(line: string)
    requires !Has(line, NUL)
    ensures Good(line, Cut(line), Length(line)) && Cut(line).end <= |line|
  {
    ScanIsGood(line, 0, []);
  }

  // ---- The tokens are the line -------------------------------------------------------------

  predicate Line(line: string) {
    !Has(line, NUL) && |line| < SIZE
  }

  // The C string at p.
  function Token(mem: seq<char>, p: nat): string
    requires p <= |mem|
  {
    mem[p..][..Find(mem[p..], NUL)]
  }

  lemma StartsInOrder(line: string, t: Cuts, k: nat)
    requires Line(line) && Good(line, t, |line|) && k <= |t.at|
    ensures Start(t, k) <= End(t, k) <= t.end <= |line|
    ensures k > 0 && !(t.colon && k == |t.at|) ==> Start(t, k) < End(t, k) && line[Start(t, k)] != ' '
    ensures k > 0 ==> End(t, k - 1) < Start(t, k)
    ensures k > 1 ==> Start(t, k - 1) < Start(t, k) - 1
  {
    hide Has;
    if k > 0 {
      assert t.at[k - 1] + 1 < |line|;
      if k > 1 {
        assert t.at[k - 2] < t.at[k - 1];
        assert line[t.at[k - 2] + 1] != ' ';
      }
    }
  }

  // In a line of any length: between its start and its end a token is not cut.
  lemma PartAt(line: string, t: Cuts, k: nat, j: nat)
    requires !Has(line, NUL) && Good(line, t, Length(line)) && k <= |t.at| && Start(t, k) <= j <= End(t, k)
    ensures End(t, k) <= t.end <= |line| && t.end < SIZE
    ensures Memory(line, t)[j] == (if j < End(t, k) then line[j] else NUL) && (j < End(t, k) ==> line[j] != NUL)
  {
    if j < End(t, k) {
      NoNulAt(line, j);
      forall l | 0 <= l < |t.at|
        ensures t.at[l] != j
      {
        if l < k {
          assert t.at[l] <= t.at[k - 1];
        } else {
          assert t.at[l] >= End(t, k);
        }
      }
      assert !IsCut(t.at, j);
    } else if k < |t.at| {
      assert t.at[k] == j;
      assert IsCut(t.at, j);
    }
  }

  lemma TokenOf(line: string, t: Cuts, k: nat)
    requires !Has(line, NUL) && Good(line, t, Length(line)) && k <= |t.at| && Start(t, k) <= End(t, k)
    ensures End(t, k) <= t.end <= |line| && End(t, k) < SIZE == |Memory(line, t)|
    ensures Token(Memory(line, t), Start(t, k)) == line[Start(t, k)..End(t, k)]
  {
    hide Good, Memory, Find;
    MemorySize(line, t);
    PartAt(line, t, k, End(t, k));
    forall j | Start(t, k) <= j <= End(t, k)
      ensures Memory(line, t)[j] == (if j < End(t, k) then line[j] else NUL) && (j < End(t, k) ==> line[j] != NUL)
    {
      PartAt(line, t, k, j);
    }
    TokenFrom(line, Memory(line, t), Start(t, k), End(t, k));
  }

  lemma MemoryAt(line: string, t: Cuts, k: nat, j: nat)
    requires Line(line) && Good(line, t, |line|) && k <= |t.at| && Start(t, k) <= j <= End(t, k)
    ensures Memory(line, t)[j] == if j < End(t, k) then line[j] else NUL
  {
    hide Good, Memory;
    LineFits(line);
    PartAt(line, t, k, j);
  }

  // Each token is the part of the line between its start and its end.
  lemma TokenIs(line: string, t: Cuts, k: nat)
    requires Line(line) && Good(line, t, |line|) && k <= |t.at|
    ensures Start(t, k) <= End(t, k) <= |line|
    ensures Token(Memory(line, t), Start(t, k)) == line[Start(t, k)..End(t, k)]
  {
    hide Good, Memory, Find;
    StartsInOrder(line, t, k);
    TokenOf(line, t, k);
  }

  lemma LineFits(line: string)
    requires Line(line)
    ensures |line| < SIZE && Length(line) == |line| && !Has(line, NUL)
    ensures forall j :: 0 <= j < |line| ==> line[j] != NUL
  {
  }

  lemma MemorySize(line: string, t: Cuts)
    ensures |Memory(line, t)| == SIZE
  {
  }

  lemma TokenFrom(line: string, mem: seq<char>, p: nat, q: nat)
    requires p <= q <= |line| && q < |mem| && mem[q] == NUL
    requires forall j :: p <= j < q ==> mem[j] == line[j] != NUL
    ensures Token(mem, p) == line[p..q]
  {
    var rest := mem[p..];
    assert rest[q - p] == NUL;
    assert forall i :: 0 <= i < q - p ==> rest[i] == mem[p + i];
    FindIs(rest, NUL, q - p);
    assert rest[..q - p] == line[p..q];
  }

  predicate Fits(mem: seq<char>, argv: seq<nat>) {
    forall i :: 0 <= i < |argv| ==> argv[i] <= |mem|
  }

  // The tokens from k on with a space between them, and a colon where the buffer still has it.
  function Join(mem: seq<char>, argv: seq<nat>, k: nat): string
    requires k < |argv| && Fits(mem, argv)
    decreases |argv| - k
  {
    Token(mem, argv[k])
    + if k + 1 == |argv| then []
      else (if argv[k + 1] > 0 && mem[argv[k + 1] - 1] == ':' then " :" else " ") + Join(mem, argv, k + 1)
  }

  lemma StartsFit(line: string, t: Cuts)
    requires Line(line) && Good(line, t, |line|)
    ensures Fits(Memory(line, t), Starts(t)) && |Starts(t)| == |t.at| + 1
    ensures forall k :: 0 <= k <= |t.at| ==> Starts(t)[k] == Start(t, k)
  {
    hide Good, Memory, Line;
    LineFits(line);
    MemorySize(line, t);
    forall i | 0 <= i <= |t.at|
      ensures Start(t, i) <= SIZE
    {
      StartsInOrder(line, t, i);
    }
  }

  lemma JoinFront(mem: seq<char>, argv: seq<nat>, k: nat)
    requires k + 1 < |argv| && Fits(mem, argv) && argv[k + 1] > 0
    ensures Join(mem, argv, k)
         == Token(mem, argv[k]) + (if mem[argv[k + 1] - 1] == ':' then " :" else " ") + Join(mem, argv, k + 1)
  {
  }

  lemma {:induction false} JoinIs(line: string, t: Cuts, k: nat)
    requires Line(line) && Good(line, t, |line|) && k <= |t.at|
    ensures t.end <= |line| && Start(t, k) <= t.end
    ensures Fits(Memory(line, t), Starts(t)) && |Starts(t)| == |t.at| + 1
    ensures Join(Memory(line, t), Starts(t), k) == line[Start(t, k)..t.end]
    decreases |t.at| - k
  {
    hide *;
    StartsInOrder(line, t, k);
    StartsFit(line, t);
    TokenIs(line, t, k);
    if k < |t.at| {
      JoinIs(line, t, k + 1);
      Separator(line, t, k);
      JoinFront(Memory(line, t), Starts(t), k);
      ThreeParts(line, Start(t, k), End(t, k), Start(t, k + 1), t.end);
    } else {
      JoinLast(Memory(line, t), Starts(t), k);
      EndOfCut(t, k);
    }
  }

  lemma ThreeParts(line: string, a: nat, b: nat, c: nat, d: nat)
    requires a <= b <= c <= d <= |line|
    ensures line[a..b] + line[b..c] + line[c..d] == line[a..d]
  {
  }

  lemma JoinLast(mem: seq<char>, argv: seq<nat>, k: nat)
    requires k + 1 == |argv| && Fits(mem, argv)
    ensures Join(mem, argv, k) == Token(mem, argv[k])
  {
  }

  lemma EndOfCut(t: Cuts, k: nat)
    ensures k >= |t.at| ==> End(t, k) == t.end
  {
  }

  // Between two tokens there is the space, or the space and the colon.
  lemma Separator(line: string, t: Cuts, k: nat)
    requires Line(line) && Good(line, t, |line|) && k < |t.at|
    ensures End(t, k) < Start(t, k + 1) <= |line|
    ensures line[End(t, k)..Start(t, k + 1)] == if Memory(line, t)[Start(t, k + 1) - 1] == ':' then " :" else " "
    ensures Memory(line, t)[Start(t, k + 1) - 1] == ':' <==> t.colon && k + 1 == |t.at|
  {
    hide Memory, Find, Has;
    StartsInOrder(line, t, k + 1);
    MemoryAt(line, t, k, End(t, k));
    if t.colon && k + 1 == |t.at| {
      ColonStays(line, t);
    }
  }

  lemma ColonStays(line: string, t: Cuts)
    requires Line(line) && Good(line, t, |line|) && t.colon
    ensures var j := t.at[|t.at| - 1] + 1;
            j < t.end == |line| && line[j] == ':' && Memory(line, t)[j] == ':'
  {
    var j := t.at[|t.at| - 1] + 1;
    assert !IsCut(t.at, j);
  }

  // Tokenizing loses nothing but one final space: at most 32 tokens, starting further and
  // further on, that make up the line again.
  lemma Lossless(line: string)
    requires !Has(line, NUL) && |line| <= 511
    ensures var (t, mem) := (Cut(line), Memory(line, Cut(line)));
            |Starts(t)| <= 32 && (forall k, l :: 0 <= k < l < |Starts(t)| ==> Starts(t)[k] < Starts(t)[l])
            && Fits(mem, Starts(t))
            && (Join(mem, Starts(t), 0) == line || Join(mem, Starts(t), 0) + " " == line)
  {
    hide Memory, Find, Token, Join, Has, Scan;
    var t := Cut(line);
    CutIsGood(line);
    JoinIs(line, t, 0);
    forall k, l | 0 <= k < l <= |t.at|
      ensures Start(t, k) < Start(t, l)
    {
      StartsInOrder(line, t, l);
      StartsInOrder(line, t, k);
      if k > 0 {
        assert t.at[k - 1] < t.at[l - 1];
      }
    }
    assert line[0..t.end] == line || line[0..t.end] + " " == line;
  }
}
