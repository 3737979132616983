// src/Channel.cpp: what a mode line does to the nicks of a channel. The slots and the nicks
// do not depend on each other, so the calls on nicks are made after the line is parsed.
module ChannelNicks {
  import opened ISupport
  import opened Nicks
  import opened Channels

  // m_Nicks tells names apart by their lower case.
  function Lower(name: string): string {
    seq(|name|, i requires 0 <= i < |name| => if 'A' <= name[i] <= 'Z' then ((name[i] as int) + 32) as char else name[i])
  }

  // Two names are one nick if they differ at most in the case of the letters A to Z.
  lemma LowerMeans(a: string, b: string)
    ensures Lower(a) == Lower(b) <==> AlikeNames(a, b)
  {
    var f, g := Lower(a), Lower(b);
    assert |f| == |a| && |g| == |b|;
    if f == g {
      forall i | 0 <= i < |a|
        ensures AlikeLetters(a[i], b[i])
      {
        assert f[i] == g[i];
      }
    }
    if AlikeNames(a, b) {
      assert forall i :: 0 <= i < |a| ==> f[i] == g[i];
      assert f == g;
    }
  }

  predicate AlikeNames(a: string, b: string) {
    |a| == |b| && forall i :: 0 <= i < |a| ==> AlikeLetters(a[i], b[i])
  }

  predicate AlikeLetters(a: char, b: char) {
    a == b || ('A' <= a <= 'Z' && b as int == a as int + 32) || ('A' <= b <= 'Z' && a as int == b as int + 32)
  }

  function ChangesOf(calls: seq<NickCall>, name: string): seq<Change> {
    if calls == [] then []
    else (if Lower(calls[0].nick) == name then [calls[0].change] else []) + ChangesOf(calls[1..], name)
  }

  // Every nick of the channel shows the modes it holds.
  ghost predicate AllShow(nicks: map<string, Nick>, modes: string, symbols: string, held: map<string, set<char>>)
    requires |modes| == |symbols| && nicks.Keys <= held.Keys
    reads nicks.Values, set n | n in nicks :: nicks[n].prefixes
  {
    forall n :: n in nicks ==> nicks[n].Valid() && nicks[n].Text() == Shown(modes, symbols, held[n])
  }

  predicate Apart(nicks: map<string, Nick>) {
    forall a, b :: a in nicks && b in nicks && a != b ==> nicks[a] != nicks[b]
  }

  ghost function HeldBy(modes: string, held: map<string, set<char>>, calls: seq<NickCall>): map<string, set<char>> {
    map n | n in held :: Held(modes, held[n], ChangesOf(calls, n))
  }

  lemma HeldByFirst(modes: string, held: map<string, set<char>>, calls: seq<NickCall>)
    requires calls != []
    ensures HeldBy(modes, HeldBy(modes, held, [calls[0]]), calls[1..]) == HeldBy(modes, held, calls)
  {
    var call := calls[0];
    assert [call][1..] == [];
    forall n | n in held
      ensures Held(modes, HeldBy(modes, held, [call])[n], ChangesOf(calls[1..], n)) == Held(modes, held[n], ChangesOf(calls, n))
    {
      var changes := ChangesOf(calls, n);
      assert ChangesOf([call], n) == if Lower(call.nick) == n then [call.change] else [];
      if Lower(call.nick) == n {
        assert changes[1..] == ChangesOf(calls[1..], n);
        HeldFirst(modes, held[n], changes);
      } else {
        assert changes == ChangesOf(calls[1..], n);
      }
    }
  }

  lemma HeldByNone(modes: string, held: map<string, set<char>>)
    ensures HeldBy(modes, held, []) == held
  {
  }

  method ApplyCall(sv: Server, call: NickCall, nicks: map<string, Nick>,
                   ghost modes: string, ghost symbols: string, ghost held: map<string, set<char>>)
    requires Prefix(sv.prefix, modes, symbols) && !Has(sv.prefix, NUL)
    requires Apart(nicks) && nicks.Keys <= held.Keys && AllShow(nicks, modes, symbols, held)
    modifies nicks.Values
    ensures AllShow(nicks, modes, symbols, HeldBy(modes, held, [call]))
  {
    hide Prefix, Has, Find, Lower, Shown, Held, ChangesOf;
    var name := Lower(call.nick);
    OneCall(modes, call);
    PrefixLengths(sv.prefix, modes, symbols);
    if name in nicks {
      nicks[name].ChangeMode(sv.prefix, call.change, modes, symbols, held[name]);
    }
    HeldNothing(modes);
  }

  lemma OneCall(modes: string, call: NickCall)
    ensures forall n :: ChangesOf([call], n) == if Lower(call.nick) == n then [call.change] else []
  {
    assert [call][1..] == [];
  }

  lemma HeldNothing(modes: string)
    ensures forall h :: Held(modes, h, []) == h
  {
  }

  method ApplyCalls(sv: Server, calls: seq<NickCall>, nicks: map<string, Nick>,
                    ghost modes: string, ghost symbols: string, ghost held: map<string, set<char>>)
    requires Prefix(sv.prefix, modes, symbols) && !Has(sv.prefix, NUL)
    requires Apart(nicks) && nicks.Keys <= held.Keys && AllShow(nicks, modes, symbols, held)
    modifies nicks.Values
    ensures AllShow(nicks, modes, symbols, HeldBy(modes, held, calls))
  {
    hide Has, Find, AllShow, HeldBy, Apart;
    ghost var now := held;
    var i: nat := 0;
    assert calls[0..] == calls;
    HeldByKeys(modes, held, calls);
    while i < |calls|
      invariant i <= |calls| && nicks.Keys <= now.Keys
      invariant AllShow(nicks, modes, symbols, now)
      invariant HeldBy(modes, now, calls[i..]) == HeldBy(modes, held, calls)
    {
      HeldByFirst(modes, now, calls[i..]);
      assert calls[i..][1..] == calls[i + 1..];
      HeldByKeys(modes, now, [calls[i]]);
      ApplyCall(sv, calls[i], nicks, modes, symbols, now);
      now := HeldBy(modes, now, [calls[i]]);
      i := i + 1;
    }
    assert calls[i..] == [];
    HeldByNone(modes, now);
  }

  lemma HeldByKeys(modes: string, held: map<string, set<char>>, calls: seq<NickCall>)
    ensures HeldBy(modes, held, calls).Keys == held.Keys
  {
  }

  // After a mode line every nick of the channel shows, in the server's order, the modes it
  // held before with the changes the line makes to it.
  method ModeLine(channel: Channel, sv: Server, text: string, argv: seq<string>, nicks: map<string, Nick>,
                  ghost modes: string, ghost symbols: string, ghost held: map<string, set<char>>)
    requires Prefix(sv.prefix, modes, symbols) && !Has(sv.prefix, NUL)
    requires Apart(nicks) && nicks.Keys <= held.Keys && AllShow(nicks, modes, symbols, held)
    modifies channel, nicks.Values
    ensures var o := Parse(sv, old(channel.modes), text, argv, true, 0);
            channel.modes == o.slots
            && nicks.Keys <= HeldBy(modes, held, o.calls).Keys
            && AllShow(nicks, modes, symbols, HeldBy(modes, held, o.calls))
  {
    hide Parse, HeldBy, Prefix, Has;
    PrefixLengths(sv.prefix, modes, symbols);
    var calls := channel.ParseModeChange(sv, text, argv);
    HeldByKeys(modes, held, calls);
    ApplyCalls(sv, calls, nicks, modes, symbols, held);
  }
}
