/** Byte-addressed memory with 64-bit little-endian words at any alignment. */
module ByteMemory {
  import opened Arithmetic
  import opened ByteStrings

  const U64 := 0x1_0000_0000_0000_0000

  type Memory = map<int, Byte>

  function Get(m: Memory, a: int): Byte { if a in m then m[a] else 0 }

  /** Little-endian 64-bit load and store, at any alignment. */
  function Load(m: Memory, a: int): nat {
    Get(m, a) + 256 * (Get(m, a + 1) + 256 * (Get(m, a + 2) + 256 * (Get(m, a + 3)
      + 256 * (Get(m, a + 4) + 256 * (Get(m, a + 5) + 256 * (Get(m, a + 6) + 256 * Get(m, a + 7)))))))
  }
  function Store(m: Memory, a: int, v: nat): Memory {
    var v1 := v / 256; var v2 := v1 / 256; var v3 := v2 / 256; var v4 := v3 / 256;
    var v5 := v4 / 256; var v6 := v5 / 256; var v7 := v6 / 256;
    m[a := v % 256][a + 1 := v1 % 256][a + 2 := v2 % 256][a + 3 := v3 % 256][a + 4 := v4 % 256]
     [a + 5 := v5 % 256][a + 6 := v6 % 256][a + 7 := v7 % 256]
  }

  lemma LoadStored(m: Memory, a: int, v: nat)
    requires v < U64
    ensures Load(Store(m, a, v), a) == v
  {
    Digits(v);
  }

  lemma Digits(v: nat)
    requires v < U64
    ensures var v1 := v / 256; var v2 := v1 / 256; var v3 := v2 / 256; var v4 := v3 / 256;
            var v5 := v4 / 256; var v6 := v5 / 256; var v7 := v6 / 256;
            v == v % 256 + 256 * (v1 % 256 + 256 * (v2 % 256 + 256 * (v3 % 256 + 256 * (v4 % 256
                 + 256 * (v5 % 256 + 256 * (v6 % 256 + 256 * (v7 % 256)))))))
  {
    var v4 := v / 256 / 256 / 256 / 256;
    assert v4 < 0x1_0000_0000;
  }

  lemma StoreBytes(m: Memory, a: int, v: nat)
    ensures forall x :: x < a || a + 8 <= x ==> Get(Store(m, a, v), x) == Get(m, x)
  {}

  lemma StoreElsewhere(m: Memory, a: int, v: nat)
    ensures forall x :: x < a || a + 8 <= x ==> Get(Store(m, a, v), x) == Get(m, x)
    ensures forall b :: b + 8 <= a || a + 8 <= b ==> Load(Store(m, a, v), b) == Load(m, b)
  {
    StoreBytes(m, a, v);
    hide Store, Load;
    forall b | b + 8 <= a || a + 8 <= b
      ensures Load(Store(m, a, v), b) == Load(m, b) { LoadSame(m, Store(m, a, v), b); }
  }

  /** Loads only look at their eight bytes. */
  lemma LoadSame(m: Memory, m': Memory, a: int)
    requires forall x :: a <= x < a + 8 ==> Get(m', x) == Get(m, x)
    ensures Load(m', a) == Load(m, a)
  {}

  lemma GetUpdated(m: Memory, a: int, v: Byte)
    ensures Get(m[a := v], a) == v
    ensures forall x :: x != a ==> Get(m[a := v], x) == Get(m, x)
  {}

  method FillZero(m: Memory, p: nat, n: nat) returns (m': Memory)
    ensures forall x :: p <= x < p + n ==> Get(m', x) == 0
    ensures forall x :: x < p || p + n <= x ==> Get(m', x) == Get(m, x)
  {
    m' := m;
    for k := 0 to n
      invariant forall x :: p <= x < p + k ==> Get(m', x) == 0
      invariant forall x :: x < p || p + k <= x ==> Get(m', x) == Get(m, x)
    {
      ghost var was := m';
      GetUpdated(m', p + k, 0);
      m' := m'[p + k := 0];
      forall x | p <= x < p + k + 1 ensures Get(m', x) == 0 {
        if x != p + k { assert Get(was, x) == 0; }
      }
    }
  }

  /** Byte copy, meant for ranges that do not overlap. */
  method CopyBytes(m: Memory, src: nat, dst: nat, n: nat) returns (m': Memory)
    ensures forall x :: x < dst || dst + n <= x ==> Get(m', x) == Get(m, x)
    ensures src + n <= dst || dst + n <= src ==>
              forall x :: dst <= x < dst + n ==> Get(m', x) == Get(m, src + (x - dst))
  {
    m' := m;
    for k := 0 to n
      invariant forall x :: x < dst || dst + k <= x ==> Get(m', x) == Get(m, x)
      invariant src + n <= dst || dst + n <= src ==>
                  forall x :: dst <= x < dst + k ==> Get(m', x) == Get(m, src + (x - dst))
    {
      ghost var was := m';
      GetUpdated(m', dst + k, Get(m', src + k));
      m' := m'[dst + k := Get(m', src + k)];
      forall x | (src + n <= dst || dst + n <= src) && dst <= x < dst + k + 1
        ensures Get(m', x) == Get(m, src + (x - dst)) {
        if x != dst + k { assert Get(was, x) == Get(m, src + (x - dst)); }
      }
    }
  }

  // ---- the bytes of a word ----

  /** Byte k of a word. */
  function ByteOf(v: nat, k: nat): nat { if k == 0 then v % 256 else ByteOf(v / 256, k - 1) }

  /** The bytes from k on, as a number. */
  function Rest(m: Memory, a: int, k: nat): nat
    requires k <= 8
    decreases 8 - k
  {
    if k == 8 then 0 else Get(m, a + k) + 256 * Rest(m, a, k + 1)
  }

  lemma LoadIsRest(m: Memory, a: int)
    ensures Load(m, a) == Rest(m, a, 0)
  {
    assert Rest(m, a, 7) == Get(m, a + 7);
    assert Rest(m, a, 4) == Get(m, a + 4) + 256 * (Get(m, a + 5) + 256 * (Get(m, a + 6) + 256 * Rest(m, a, 7)));
  }

  lemma {:induction false} RestBytes(m: Memory, a: int, k: nat, j: nat)
    requires k + j < 8
    ensures Get(m, a + k + j) == ByteOf(Rest(m, a, k), j)
    decreases j
  {
    var b, r := Get(m, a + k), Rest(m, a, k + 1);
    assert Rest(m, a, k) == r * 256 + b;
    DivMod(r, 256, b);
    if j > 0 { RestBytes(m, a, k + 1, j - 1); }
  }

  /** A byte of memory is the byte of the word it is part of. */
  lemma WordByte(m: Memory, a: int, j: nat)
    requires j < 8
    ensures Get(m, a + j) == ByteOf(Load(m, a), j)
  {
    LoadIsRest(m, a);
    RestBytes(m, a, 0, j);
  }

  lemma {:induction false} HighByteZero(v: nat, k: nat)
    requires v < Pow256(k)
    ensures ByteOf(v, k) == 0
  {
    if k > 0 { HighByteZero(v / 256, k - 1); }
  }

  lemma {:induction false} HighBytesZero(v: nat, k: nat, j: nat)
    requires v < Pow256(k) && k <= j
    ensures ByteOf(v, j) == 0
    decreases j - k
  {
    if k == j { HighByteZero(v, k); } else {
      assert Pow256(k + 1) == 256 * Pow256(k);
      HighBytesZero(v, k + 1, j);
    }
  }
}
