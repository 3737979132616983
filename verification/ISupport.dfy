// src/IRCConnection.cpp: what the server's PREFIX and CHANMODES values say about modes.
module ISupport {
  import opened Basics

  const NUL: char := '\0'

  // strchr: where c first stands in s.
  function Find(s: string, c: char): (k: nat)
    ensures k <= |s| && (k < |s| ==> s[k] == c)
    ensures forall i :: 0 <= i < k ==> s[i] != c
  {
    if s == [] || s[0] == c then 0 else 1 + Find(s[1..], c)
  }

  predicate Has(s: string, c: char) {
    Find(s, c) < |s|
  }

  predicate Distinct(s: string) {
    forall i, j :: 0 <= i < j < |s| ==> s[i] != s[j]
  }

  lemma FindIs(s: string, c: char, k: nat)
    requires k < |s| && s[k] == c && forall i :: 0 <= i < k ==> s[i] != c
    ensures Find(s, c) == k
  {
    var f := Find(s, c);
    assert f >= k && f <= k;
  }

  // ---- PREFIX: "(" modes ")" symbols, the highest first --------------------------------

  function Symbols(prefix: string): string {
    if Has(prefix, ')') then prefix[Find(prefix, ')') + 1..] else []
  }

  function SymbolFor(prefix: string, mode: char): char {
    if prefix != [] && Find(prefix[1..], mode) < |Symbols(prefix)|
    then Symbols(prefix)[Find(prefix[1..], mode)] else NUL
  }

  // The first symbol that is among the flags.
  function Highest(symbols: string, flags: string): char {
    if symbols == [] then NUL else if Has(flags, symbols[0]) then symbols[0] else Highest(symbols[1..], flags)
  }

  method IsNickMode(prefix: string, c: char) returns (r: bool)
    ensures r <==> c != '(' && Find(prefix, c) < Find(prefix, ')')
  {
    var i: nat := 0;
    while i < |prefix| && prefix[i] != ')'
      invariant i <= Find(prefix, ')')
      invariant c != '(' ==> Find(prefix, c) >= i
    {
      if prefix[i] == c && prefix[i] != '(' {
        return true;
      }
      i := i + 1;
    }
    return false;
  }

  method PrefixForChanMode(prefix: string, mode: char) returns (r: char)
    ensures r == SymbolFor(prefix, mode)
  {
    var close := Find(prefix, ')');
    if close == |prefix| {
      return NUL;
    }
    var symbols := prefix[close + 1..];
    var k: nat := 0;
    while k < |symbols|
      invariant k <= |symbols| && k <= Find(prefix[1..], mode)
    {
      if prefix[1 + k] == mode {
        FindIs(prefix[1..], mode, k);
        return symbols[k];
      }
      k := k + 1;
    }
    return NUL;
  }

  method GetHighestUserFlag(prefix: string, flags: Option<string>) returns (r: char)
    ensures r == if flags.None? then NUL else Highest(Symbols(prefix), flags.value)
  {
    hide Highest;
    if flags.None? {
      return NUL;
    }
    HighestAt(Symbols(prefix), flags.value);
    var flip := false;
    var i: nat := 0;
    while i < |prefix|
      invariant i <= |prefix| && (flip <==> Find(prefix, ')') < i)
      invariant flip ==> Highest(Symbols(prefix), flags.value) == Highest(prefix[i..], flags.value)
    {
      HighestAt(prefix[i..], flags.value);
      if !flip {
        if prefix[i] == ')' {
          FindIs(prefix, ')', i);
          flip := true;
        }
      } else if Has(flags.value, prefix[i]) {
        return prefix[i];
      } else {
        assert prefix[i..][1..] == prefix[i + 1..];
      }
      i := i + 1;
    }
    HighestAt(prefix[i..], flags.value);
    return NUL;
  }

  lemma HighestAt(symbols: string, flags: string)
    ensures Highest(symbols, flags)
         == if symbols == [] then NUL else if Has(flags, symbols[0]) then symbols[0] else Highest(symbols[1..], flags)
  {
  }

  // Some flag is a symbol exactly when one is found, and none of them ranks before it.
  lemma {:induction false} HighestIsBest(symbols: string, flags: string)
    requires !Has(symbols, NUL)
    ensures var h := Highest(symbols, flags);
            h != NUL ==> Has(flags, h) && Has(symbols, h)
    ensures var h := Highest(symbols, flags);
            forall c :: Has(flags, c) && Has(symbols, c) ==> h != NUL && Find(symbols, h) <= Find(symbols, c)
  {
    if symbols != [] && !Has(flags, symbols[0]) {
      HighestIsBest(symbols[1..], flags);
    }
  }

  predicate Prefix(prefix: string, modes: string, symbols: string) {
    prefix == "(" + modes + ")" + symbols && |modes| == |symbols| && Distinct(modes) && Distinct(symbols)
    && !Has(modes, '(') && !Has(modes, ')') && !Has(symbols, NUL)
  }

  // In a well-formed value the nick modes are those in the parentheses, each with its symbol.
  lemma PrefixMeans(prefix: string, modes: string, symbols: string)
    requires Prefix(prefix, modes, symbols)
    ensures Symbols(prefix) == symbols
    ensures forall c :: (c != '(' && Find(prefix, c) < Find(prefix, ')')) <==> Has(modes, c)
    ensures forall c :: Has(modes, c) ==> SymbolFor(prefix, c) == symbols[Find(modes, c)]
  {
    var n := |modes|;
    assert prefix[0] == '(' && prefix[1 + n] == ')' && |prefix| == n + 2 + |symbols|;
    assert prefix[1..][..n] == modes && prefix[n + 2..] == symbols;
    FindIs(prefix, ')', n + 1);
    forall c | Has(modes, c)
      ensures Find(prefix[1..], c) == Find(modes, c) && c != '(' && Find(prefix, c) == Find(modes, c) + 1
    {
      var k := Find(modes, c);
      FindIs(prefix[1..], c, k);
      FindIs(prefix, c, k + 1);
    }
    forall c | c != '(' && Find(prefix, c) < n + 1
      ensures Has(modes, c)
    {
      var k := Find(prefix, c);
      assert modes[k - 1] == c;
    }
  }

  // ---- CHANMODES: four lists, parted by commas -------------------------------------------

  // 3 for a mode of the first list, down to 0 past the third comma.
  function ClassIn(s: string, mode: char, n: nat): (r: nat)
    requires n > 0
    ensures r <= n
  {
    if s == [] || s[0] == mode then n
    else if s[0] != ',' then ClassIn(s[1..], mode, n)
    else if n == 1 then 0
    else ClassIn(s[1..], mode, n - 1)
  }

  function Class(chanmodes: string, mode: char): nat {
    ClassIn(chanmodes, mode, 3)
  }

  method RequiresParameter(chanmodes: string, mode: char) returns (n: nat)
    ensures n == Class(chanmodes, mode)
  {
    n := 3;
    var i: nat := 0;
    while i < |chanmodes|
      invariant i <= |chanmodes| && n > 0
      invariant ClassIn(chanmodes[i..], mode, n) == Class(chanmodes, mode)
    {
      assert chanmodes[i..][1..] == chanmodes[i + 1..];
      if chanmodes[i] == mode {
        return;
      } else if chanmodes[i] == ',' {
        n := n - 1;
      }
      if n == 0 {
        return;
      }
      i := i + 1;
    }
  }

  lemma {:induction false} ClassPassesList(a: string, rest: string, mode: char, n: nat)
    requires n > 0 && mode != ',' && !Has(a, ',')
    ensures ClassIn(a + "," + rest, mode, n)
         == if Has(a, mode) then n else if n == 1 then 0 else ClassIn(rest, mode, n - 1)
  {
    var s := a + "," + rest;
    if a == [] {
      assert s[0] == ',' && s[1..] == rest;
    } else {
      assert s[0] == a[0] && s[1..] == a[1..] + "," + rest;
      if a[0] != mode {
        ClassPassesList(a[1..], rest, mode, n);
      }
    }
  }

  // The first of the three lists that names a mode decides; all others take no parameter.
  lemma ClassMeans(a: string, b: string, c: string, d: string, mode: char)
    requires mode != ',' && !Has(a, ',') && !Has(b, ',') && !Has(c, ',')
    ensures Class(a + "," + (b + "," + (c + "," + d)), mode)
         == if Has(a, mode) then 3 else if Has(b, mode) then 2 else if Has(c, mode) then 1 else 0
  {
    ClassPassesList(a, b + "," + (c + "," + d), mode, 3);
    ClassPassesList(b, c + "," + d, mode, 2);
    ClassPassesList(c, d, mode, 1);
  }
}
