/** Vocabulary shared by every module: optional values, file contents, maps that agree, hexadecimal text. */
module Basics {
  datatype Option<+T> = None | Some(value: T)

  newtype Byte = x: int | 0 <= x < 256
  type Bytes = seq<Byte>

  /** Two maps hold the same thing (or both nothing) at one key. */
  ghost predicate SameAt<K, V>(m: map<K, V>, n: map<K, V>, k: K) {
    && (k in m <==> k in n)
    && (k in m ==> m[k] == n[k])
  }

  /** Two maps differ at most at these keys. */
  ghost predicate AgreeOutside<K(!new), V>(a: map<K, V>, b: map<K, V>, keys: set<K>) {
    forall k | k !in keys :: SameAt(a, b, k)
  }

  lemma AgreeSelf<K(!new), V>(a: map<K, V>, keys: set<K>)
    ensures AgreeOutside(a, a, keys)
  {
  }

  /** A change at one of the keys keeps the agreement elsewhere. */
  lemma KeyUpdate<K(!new), V>(now: map<K, V>, next: map<K, V>, before: map<K, V>, keys: set<K>, k: K)
    requires k in keys && AgreeOutside(now, before, keys)
    requires now - {k} == next - {k}
    ensures AgreeOutside(next, before, keys)
  {
    forall p | p !in keys ensures SameAt(next, before, p) {
      assert SameAt(now, before, p);
      assert SameAt(now - {k}, next - {k}, p);
    }
  }

  lemma SameEverywhere<K(!new), V>(m: map<K, V>, n: map<K, V>)
    requires forall k :: SameAt(m, n, k)
    ensures m == n
  {
    assert forall k :: k in m ==> SameAt(m, n, k);
    assert forall k :: k in n ==> SameAt(m, n, k);
  }

  /** A map that differs from another at one of its keys at most is an update of it there. */
  lemma UpdatedAt<K(!new), V>(before: map<K, V>, after: map<K, V>, k: K)
    requires k in after && after - {k} == before - {k}
    ensures after == before[k := after[k]]
  {
    var want := before[k := after[k]];
    forall j: K ensures SameAt(after, want, j) {
      assert SameAt(after - {k}, before - {k}, j);
      if j != k { assert SameAt(after, after - {k}, j) && SameAt(before, before - {k}, j); }
    }
    SameEverywhere(after, want);
  }

  /** ASCII letters without their case. */
  function Fold(c: char): char {
    if 'A' <= c <= 'Z' then c - 'A' + 'a' else c
  }

  /** Two strings are equal but for the case of ASCII letters. */
  predicate SameFolded(a: string, b: string) {
    |a| == |b| && forall i | 0 <= i < |a| :: Fold(a[i]) == Fold(b[i])
  }

  /** Two characters are folded alike exactly if they are the same, or one ASCII letter in both cases. */
  lemma FoldExactly(c: char, d: char)
    ensures Fold(c) == Fold(d) <==>
      || c == d || ('A' <= c <= 'Z' && d as int == c as int + 32) || ('A' <= d <= 'Z' && c as int == d as int + 32)
  {
  }

  predicate IsLowerHex(c: char) {
    '0' <= c <= '9' || 'a' <= c <= 'f'
  }

  /** The 64 lower-case hexadecimal digits of a SHA-256 digest. */
  predicate IsHex64(s: string) {
    |s| == 64 && forall i | 0 <= i < 64 :: IsLowerHex(s[i])
  }

  /** The first index of x in s, or -1. */
  function IndexOf<T(==)>(x: T, s: seq<T>): (r: int)
    ensures -1 <= r < |s|
    ensures r >= 0 ==> s[r] == x
    ensures forall j | 0 <= j < (if r < 0 then |s| else r) :: s[j] != x
  {
    if s == [] then -1
    else if s[0] == x then 0
    else
      var r := IndexOf(x, s[1..]);
      assert forall j | 0 < j < |s| :: s[j] == s[1..][j - 1];
      if r < 0 then -1 else r + 1
  }
}
