// Which keys of the table of src/Hashtable.h are the same, and what the hash of a key is.
module HashtableKeys {
  import opened Basics
  import opened Hashtable

  // strcmp, or strcasecmp in the C locale: a letter and its other case count as equal.
  predicate Alike(a: Key, b: Key, caseSensitive: bool) {
    |a| == |b| && forall i :: 0 <= i < |a| ==> AlikeBytes(a[i], b[i], caseSensitive)
  }

  predicate AlikeBytes(a: byte, b: byte, caseSensitive: bool) {
    a == b
    || (!caseSensitive && 65 <= a <= 90 && b as int == a as int + 32)
    || (!caseSensitive && 65 <= b <= 90 && a as int == b as int + 32)
  }

  lemma FoldMeans(a: Key, b: Key, caseSensitive: bool)
    ensures Fold(a, caseSensitive) == Fold(b, caseSensitive) <==> Alike(a, b, caseSensitive)
    ensures Alike(a, b, true) <==> a == b
  {
    var f, g := Fold(a, caseSensitive), Fold(b, caseSensitive);
    assert |f| == |a| && |g| == |b|;
    if f == g {
      forall i | 0 <= i < |a|
        ensures f[i] == g[i] && AlikeBytes(a[i], b[i], caseSensitive)
      {
        assert f[i] == g[i];
      }
    }
    if Alike(a, b, caseSensitive) {
      assert forall i :: 0 <= i < |a| ==> f[i] == g[i];
      assert f == g;
    }
  }

  lemma SameMeans<V>(t: Table<V>, a: Key, b: Key)
    ensures t.Same(a, b) <==> Alike(a, b, t.caseSensitive)
  {
    FoldMeans(a, b, t.caseSensitive);
  }

  // After Add, Get finds the value under the keys alike to the one it was added under, and
  // under every other key what it found before.
  method GetAfterAdd<V>(t: Table<V>, added: Key, value: V, asked: Key) returns (before: Option<V>, after: Option<V>)
    requires t.Valid()
    modifies t`buckets, t`bucketCount, t`lengthCache, t`contents, t`destroyed
    ensures t.Valid()
    ensures after == if Alike(added, asked, t.caseSensitive) then Some(value) else before
  {
    hide Fold, Holds;
    FoldMeans(added, asked, t.caseSensitive);
    before := t.Get(asked);
    t.Add(added, value);
    after := t.Get(asked);
  }

  // After Remove, Get finds nothing under the keys alike to the one removed, and under every
  // other key what it found before.
  method GetAfterRemove<V>(t: Table<V>, removed: Key, asked: Key) returns (before: Option<V>, after: Option<V>)
    requires t.Valid()
    modifies t`buckets, t`lengthCache, t`contents, t`destroyed
    ensures t.Valid()
    ensures after == if Alike(removed, asked, t.caseSensitive) then None else before
  {
    hide Fold, Holds;
    FoldMeans(removed, asked, t.caseSensitive);
    before := t.Get(asked);
    t.Remove(removed, false);
    after := t.Get(asked);
  }

  // ---- the hash ------------------------------------------------------------------------

  function Power(n: nat): nat {
    if n == 0 then 1 else 33 * Power(n - 1)
  }

  // The characters as the digits of a number to the base 33.
  function Digits(key: Key): int {
    if key == [] then 0 else Power(|key| - 1) * Value(key[0]) + Digits(key[1..])
  }

  // A character of eight bits with a sign.
  function Value(c: byte): int {
    if c < 128 then c as int else c as int - 256
  }

  lemma {:induction false} DigitsSnoc(key: Key, c: byte)
    ensures Digits(key + [c]) == 33 * Digits(key) + Value(c)
  {
    if key == [] {
      assert ([] + [c])[1..] == [] && Power(0) == 1;
    } else {
      assert (key + [c])[1..] == key[1..] + [c];
      DigitsSnoc(key[1..], c);
      var p, s := Power(|key| - 1), Value(key[0]);
      assert Power(|key|) == 33 * p;
      assert Power(|key|) * s == 33 * (p * s);
    }
  }

  // The hash is 5381 in front of the digits of the key, modulo 2 to the 64.
  lemma {:induction false} HashIsPolynomial(key: Key)
    ensures Djb2(key) == (5381 * Power(|key|) + Digits(key)) % 0x1_0000_0000_0000_0000
  {
    if key != [] {
      var init, c := key[..|key| - 1], key[|key| - 1];
      HashIsPolynomial(init);
      DigitsSnoc(init, c);
      assert init + [c] == key;
      var x, m := 5381 * Power(|init|) + Digits(init), 0x1_0000_0000_0000_0000;
      ModuloStep(x, Signed(c), m);
      assert x * 33 + Signed(c) == 5381 * Power(|key|) + Digits(key);
    }
  }

  lemma ModuloStep(x: int, c: int, m: int)
    requires m > 0
    ensures (x % m * 33 + c) % m == (x * 33 + c) % m
  {
    var q := x / m;
    assert x == q * m + x % m;
    assert x * 33 + c == x % m * 33 + c + (33 * q) * m;
    ModuloMultiple(x % m * 33 + c, 33 * q, m);
  }

  lemma ModuloMultiple(x: int, k: int, m: int)
    requires m > 0
    ensures (x + k * m) % m == x % m
  {
    var a, b := x / m, (x + k * m) / m;
    var d := (x + k * m) % m - x % m;
    assert d == (k + a - b) * m;
    MultiplesAreApart(k + a - b, m);
  }

  lemma MultiplesAreApart(k: int, m: int)
    requires m > 0
    ensures k == 0 || k * m >= m || k * m <= -m
  {
    if k >= 1 {
      assert (k - 1) * m >= 0;
    } else {
      assert (-k) * m >= 0 && (k < 0 ==> (-k - 1) * m >= 0);
    }
  }
}
