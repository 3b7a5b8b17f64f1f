/** Byte strings and where one occurs in another. */
module ByteStrings {

  type Byte = b: int | 0 <= b < 256
  type Bytes = seq<Byte>

  ghost predicate At(b: Bytes, p: nat, s: Bytes) { p + |s| <= |b| && b[p..p + |s|] == s }

  lemma AtSplit(b: Bytes, p: nat, s: Bytes, t: Bytes)
    requires At(b, p, s + t)
    ensures At(b, p, s) && At(b, p + |s|, t)
  {
    assert b[p..p + |s|] == b[p..p + |s + t|][..|s|];
    assert b[p + |s|..p + |s| + |t|] == b[p..p + |s + t|][|s|..];
  }

  lemma AtFits(b: Bytes, p: nat, s: Bytes)
    requires At(b, p, s)
    ensures p + |s| <= |b|
  {}

  lemma AtStart(b: Bytes, s: Bytes)
    requires At(b, 0, s)
    ensures |s| <= |b| && b[..|s|] == s && forall k :: 0 <= k <= |s| ==> b[..k] == s[..k]
  {
    forall k | 0 <= k <= |s| ensures b[..k] == s[..k] { assert b[..k] == b[..|s|][..k]; }
  }

  lemma AtWhole(b: Bytes)
    ensures At(b, 0, b)
  {
    assert b[0..|b|] == b;
  }

  lemma AtBytes(b: Bytes, p: nat, s: Bytes)
    requires At(b, p, s)
    ensures p + |s| <= |b| && b[p..p + |s|] == s
  {}

  lemma Associates<T>(x: seq<T>, y: seq<T>, z: seq<T>)
    ensures x + (y + z) == x + y + z
  {}

  lemma SliceSlice(b: Bytes, p: nat, n: nat, k: nat, m: nat)
    requires p + n <= |b| && k + m <= n
    ensures b[p..p + n][k..k + m] == b[p + k..p + k + m]
  {
    var s := b[p..p + n];
    var x, y := s[k..k + m], b[p + k..p + k + m];
    forall i | 0 <= i < m ensures x[i] == y[i] { assert s[k + i] == b[p + k + i]; }
  }

  lemma SliceConcat(s: Bytes, z: Bytes, k: nat, m: nat)
    requires k + m <= |s|
    ensures (s + z)[k..k + m] == s[k..k + m]
  {}
}
