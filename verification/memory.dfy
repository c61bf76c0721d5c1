/** Physical memory: one flat run of bytes.  Page tables, list nodes, the ELF image and heap
    data all live in it, so that keeping them apart is something to prove. */
module PhysicalMemory {
  import opened Bits

  type Byte = x: nat | x < 256
  type Memory = seq<Byte>

  /** Addresses with no memory behind them read as zero. */
  function ByteAt(m: Memory, a: nat): Byte {
    if a < |m| then m[a] else 0
  }

  /** The little-endian number in the `n` bytes from `a`. */
  function ReadLE(m: Memory, a: nat, n: nat): nat
    decreases n, a
  {
    if n == 0 then 0 else ByteAt(m, a) + 256 * ReadLE(m, a + 1, n - 1)
  }

  /** The `n` low bytes of `v`, least significant first. */
  function ToLE(v: nat, n: nat): (s: seq<Byte>)
    ensures |s| == n
    decreases n, v
  {
    if n == 0 then [] else [v % 256] + ToLE(v / 256, n - 1)
  }

  /** Writes that do not fit in the memory have no effect. */
  function Store(m: Memory, a: nat, s: seq<Byte>): (m': Memory)
    ensures |m'| == |m|
    ensures a + |s| <= |m| ==>
              forall x: nat :: ByteAt(m', x) == if a <= x < a + |s| then s[x - a] else ByteAt(m, x)
  {
    if a + |s| <= |m| then m[..a] + s + m[a + |s|..] else m
  }

  function Zeros(n: nat): (s: seq<Byte>)
    ensures |s| == n
    ensures forall i :: 0 <= i < n ==> s[i] == 0
  {
    seq(n, i => 0)
  }

  /** The `n` bytes from `a`. */
  function Bytes(m: Memory, a: nat, n: nat): (s: seq<Byte>)
    ensures |s| == n
    ensures forall i :: 0 <= i < n ==> s[i] == ByteAt(m, a + i)
  {
    seq<Byte>(n, i requires 0 <= i => ByteAt(m, a + i))
  }

  /** Two memories with the same bytes in a range. */
  ghost predicate SameBytes(m: Memory, m': Memory, a: nat, n: nat) {
    forall x: nat :: a <= x < a + n ==> ByteAt(m, x) == ByteAt(m', x)
  }

  /** A number depends on its own bytes only. */
  lemma {:induction false} ReadLocal(m: Memory, m': Memory, a: nat, n: nat)
    requires SameBytes(m, m', a, n)
    ensures ReadLE(m, a, n) == ReadLE(m', a, n)
    decreases n
  {
    if n > 0 {
      ReadLocal(m, m', a + 1, n - 1);
    }
  }

  lemma {:induction false} ReadZeros(m: Memory, a: nat, n: nat)
    requires forall x: nat :: a <= x < a + n ==> ByteAt(m, x) == 0
    ensures ReadLE(m, a, n) == 0
    decreases n
  {
    if n > 0 {
      ReadZeros(m, a + 1, n - 1);
    }
  }

  /** What was stored is what is read back, up to the width. */
  lemma {:induction false} ReadBack(m: Memory, a: nat, v: nat, n: nat)
    requires forall i: nat :: i < n ==> ByteAt(m, a + i) == ToLE(v, n)[i]
    ensures ReadLE(m, a, n) == v % Pow256(n)
    decreases n
  {
    if n > 0 {
      var rest := ToLE(v / 256, n - 1);
      forall i: nat | i < n - 1 ensures ByteAt(m, a + 1 + i) == rest[i] {
        assert ByteAt(m, a + (i + 1)) == ToLE(v, n)[i + 1];
      }
      ReadBack(m, a + 1, v / 256, n - 1);
      assert ByteAt(m, a + 0) == ToLE(v, n)[0];
      ModByteFirst(v, Pow256(n - 1));
    }
  }

  function Pow256(n: nat): (r: nat)
    ensures r > 0
  {
    if n == 0 then 1 else 256 * Pow256(n - 1)
  }

  lemma ModByteFirst(v: nat, q: nat)
    requires q > 0
    ensures v % (256 * q) == v % 256 + 256 * (v / 256 % q)
  {
    var d, r := v / 256 / q, v / 256 % q;
    assert v / 256 == d * q + r;
    assert d * (256 * q) == 256 * (d * q);
    DivUnique(v, 256 * q, d, v % 256 + 256 * r);
  }

  /** Writing a 64-bit word. */
  function Write64(m: Memory, a: nat, v: nat): (m': Memory)
    ensures |m'| == |m|
    ensures forall x: nat :: !(a <= x < a + 8) ==> ByteAt(m', x) == ByteAt(m, x)
  {
    Store(m, a, ToLE(v, 8))
  }

  lemma ReadWritten(m: Memory, a: nat, v: nat)
    requires a + 8 <= |m| && v < TWO_64
    ensures ReadLE(Write64(m, a, v), a, 8) == v
  {
    ReadStored(m, a, v, 8);
    Pow256Word();
    SmallRemainder(v, Pow256(8));
  }

  lemma SmallRemainder(v: nat, q: nat)
    requires v < q
    ensures v % q == v
  {
  }

  lemma ReadStored(m: Memory, a: nat, v: nat, n: nat)
    requires a + n <= |m|
    ensures ReadLE(Store(m, a, ToLE(v, n)), a, n) == v % Pow256(n)
  {
    var s := ToLE(v, n);
    var m' := Store(m, a, s);
    forall i: nat | i < n ensures ByteAt(m', a + i) == s[i] {
    }
    ReadBack(m', a, v, n);
  }

  lemma Pow256Word()
    ensures Pow256(8) == TWO_64
  {
  }
}
