// The text that GetChannelModes of src/Channel.cpp builds in its growing buffer.
module ChannelText {
  import opened Channels

  // ---- The text: when strmcat cuts nothing off -----------------------------------------

  function Joined(parameters: seq<string>): string {
    if parameters == [] then [] else " " + parameters[0] + Joined(parameters[1..])
  }

  // The buffer grows by the parameter and 1024 when the text would be longer than it.
  function Grow(length: nat, size: nat, extra: nat): nat {
    if length > size then size + extra + 1024 else size
  }

  // No piece may end where the buffer does: there is no room for the NUL then, and only a
  // longer parameter makes the buffer grow.
  predicate Roomy(length: nat, size: nat, parameters: seq<string>)
    decreases |parameters|
  {
    parameters == [] ||
    (length + 1 < size && length + 1 + |parameters[0]| != size
     && Roomy(length + 1 + |parameters[0]|, Grow(length + 1 + |parameters[0]|, size, |parameters[0]|), parameters[1..]))
  }

  lemma {:induction false} AppendIsShort(text: string, size: nat, parameters: seq<string>)
    requires |text| < size
    ensures |Append(text, size, parameters)| <= |text| + |Joined(parameters)|
    decreases |parameters|
  {
    if parameters != [] {
      var blank := Cat(text, " ", size);
      var grown := Grown(|blank|, size, parameters[0]);
      AppendIsShort(Cat(blank, parameters[0], grown), grown, parameters[1..]);
    }
  }

  lemma {:induction false} AppendIsWhole(text: string, size: nat, parameters: seq<string>)
    requires |text| < size
    ensures Append(text, size, parameters) == text + Joined(parameters) <==> Roomy(|text|, size, parameters)
    decreases |parameters|
  {
    hide *;
    JoinedFront(parameters);
    AppendFront(text, size, parameters);
    RoomyFront(|text|, size, parameters);
    if parameters == [] {
      assert text + Joined(parameters) == text;
    } else {
      var p, rest := parameters[0], parameters[1..];
      var blank := Cat(text, " ", size);
      CatIs(text, " ", size);
      var grown := Grown(|blank|, size, p);
      GrownIs(|blank|, size, p);
      var longer := Cat(blank, p, grown);
      CatIs(blank, p, grown);
      Regroup(text, p, Joined(rest));
      AppendIsShort(longer, grown, rest);
      if |text| + 1 < size && |text| + 1 + |p| != size {
        AppendIsWhole(longer, grown, rest);
      }
    }
  }

  lemma RoomyFront(length: nat, size: nat, parameters: seq<string>)
    ensures Roomy(length, size, parameters) <==>
      parameters == [] ||
      (length + 1 < size && length + 1 + |parameters[0]| != size
       && Roomy(length + 1 + |parameters[0]|, Grow(length + 1 + |parameters[0]|, size, |parameters[0]|), parameters[1..]))
  {
  }

  lemma JoinedFront(parameters: seq<string>)
    ensures parameters == [] ==> Joined(parameters) == []
    ensures parameters != [] ==> Joined(parameters) == " " + parameters[0] + Joined(parameters[1..])
  {
  }

  // Texts that fit the buffer as first allocated are whole.
  lemma {:induction false} FittingIsRoomy(length: nat, size: nat, parameters: seq<string>)
    requires length + |Joined(parameters)| < size
    ensures Roomy(length, size, parameters)
    decreases |parameters|
  {
    if parameters != [] {
      FittingIsRoomy(length + 1 + |parameters[0]|, size, parameters[1..]);
    }
  }

  lemma AppendExtends(text: string, size: nat, parameters: seq<string>)
    requires |text| < size
    ensures text <= Append(text, size, parameters)
    decreases |parameters|
  {
    if parameters != [] {
      var blank := Cat(text, " ", size);
      var grown := Grown(|blank|, size, parameters[0]);
      AppendExtends(Cat(blank, parameters[0], grown), grown, parameters[1..]);
    }
  }

  // What is cut off lies past the first 1023 characters.
  lemma {:induction false} AppendBegins(text: string, size: nat, parameters: seq<string>)
    requires |text| < size && size >= 1024
    ensures var (a, full) := (Append(text, size, parameters), text + Joined(parameters));
            a == full || (|a| >= 1023 && |full| >= 1023 && a[..1023] == full[..1023])
    decreases |parameters|
  {
    hide *;
    JoinedFront(parameters);
    AppendFront(text, size, parameters);
    if parameters == [] {
      assert text + [] == text;
    } else {
      var p, rest := parameters[0], parameters[1..];
      var blank := Cat(text, " ", size);
      CatIs(text, " ", size);
      var grown := Grown(|blank|, size, p);
      GrownIs(|blank|, size, p);
      var longer := Cat(blank, p, grown);
      CatIs(blank, p, grown);
      var full := text + Joined(parameters);
      AppendExtends(longer, grown, rest);
      Regroup(text, p, Joined(rest));
      if |text| + 1 == size {
        FrontOf(text, Append(longer, grown, rest), full);
      } else if |blank| + |p| == size {
        assert longer <= text + " " + p <= full;
        FrontOf(longer, Append(longer, grown, rest), full);
      } else {
        AppendBegins(longer, grown, rest);
      }
    }
  }

  lemma CatIs(text: string, s: string, size: nat)
    requires |text| < size
    ensures text <= Cat(text, s, size) <= text + s
    ensures |text| + |s| < size ==> Cat(text, s, size) == text + s
    ensures |text| + |s| >= size ==> |Cat(text, s, size)| == size - 1
  {
  }

  lemma GrownIs(length: nat, size: nat, parameter: string)
    requires length < size
    ensures size <= Grown(length, size, parameter)
    ensures Grown(length, size, parameter) == Grow(length + |parameter|, size, |parameter|)
    ensures length + |parameter| != size ==> length + |parameter| < Grown(length, size, parameter)
    ensures length + |parameter| == size ==> Grown(length, size, parameter) == size
  {
  }

  lemma Regroup(text: string, p: string, rest: string)
    ensures text + (" " + p + rest) == text + " " + p + rest
    ensures text <= text + " " + p + rest && text + " " + p <= text + " " + p + rest
  {
  }

  lemma FrontOf(s: string, a: string, b: string)
    requires s <= a && s <= b && |s| >= 1023
    ensures a[..1023] == b[..1023]
  {
    assert a[..1023] == s[..1023] == b[..1023];
  }

  lemma AppendFront(text: string, size: nat, parameters: seq<string>)
    requires |text| < size
    ensures Append(text, size, parameters)
         == if parameters == [] then text
            else
              var blank := Cat(text, " ", size);
              var grown := Grown(|blank|, size, parameters[0]);
              Append(Cat(blank, parameters[0], grown), grown, parameters[1..])
  {
  }
}
