/** Little-endian integers, and code memory as a sequence of bytes indexed by address. */
module Bytes {

  type Byte = b: int | 0 <= b < 256

  const TWO31: int := 0x8000_0000
  const TWO32: int := 0x1_0000_0000
  const TWO64: int := 0x1_0000_0000_0000_0000

  /** The value a 32-bit int keeps of x. */
  function Wrap32(x: int): (w: int)
    ensures Fits32(w) && (w == x <==> Fits32(x))
  {
    (x + TWO31) % TWO32 - TWO31
  }

  predicate Fits32(x: int) { -TWO31 <= x < TWO31 }

  /** The n low bytes of u, least significant first. */
  function Encode(n: nat, u: nat): (b: seq<Byte>)
    ensures |b| == n
  {
    if n == 0 then [] else [u % 256] + Encode(n - 1, u / 256)
  }

  function Decode(b: seq<Byte>): nat {
    if b == [] then 0 else b[0] + 256 * Decode(b[1..])
  }

  function Pow256(n: nat): (p: nat)
    ensures p > 0
  {
    if n == 0 then 1 else 256 * Pow256(n - 1)
  }

  lemma {:induction false} DecodeEncode(n: nat, u: nat)
    requires u < Pow256(n)
    ensures Decode(Encode(n, u)) == u
  {
    if n > 0 {
      DecodeEncode(n - 1, u / 256);
    }
  }

  lemma {:induction false} EncodeDecode(b: seq<Byte>)
    ensures Decode(b) < Pow256(|b|) && Encode(|b|, Decode(b)) == b
  {
    if b != [] {
      EncodeDecode(b[1..]);
      assert Decode(b) / 256 == Decode(b[1..]) && Decode(b) % 256 == b[0];
    }
  }

  lemma Pow256At4()
    ensures Pow256(4) == TWO32
  {
    assert Pow256(1) == 256 && Pow256(2) == 65536 && Pow256(3) == 16777216;
  }

  lemma Pow256At8()
    ensures Pow256(8) == TWO64
  {
    Pow256At4();
    assert Pow256(5) == 0x100_0000_0000 && Pow256(6) == 0x1_0000_0000_0000 && Pow256(7) == 0x100_0000_0000_0000;
  }

  /** A 32-bit displacement field. */
  function Enc32(d: int): (b: seq<Byte>)
    ensures |b| == 4
  {
    Encode(4, d % TWO32)
  }

  function Dec32(b: seq<Byte>): (d: int)
    requires |b| == 4
    ensures Fits32(d)
  {
    Wrap32(Decode(b))
  }

  lemma WrapModulo(d: int)
    ensures Wrap32(d % TWO32) == Wrap32(d)
  {
    var q, r := d / 0x1_0000_0000, d % 0x1_0000_0000;
    assert d + 0x8000_0000 == q * 0x1_0000_0000 + (r + 0x8000_0000);
  }

  lemma DecEnc32(d: int)
    ensures Dec32(Enc32(d)) == Wrap32(d)
  {
    hide Encode, Decode, Pow256, Wrap32;
    Pow256At4();
    DecodeEncode(4, d % TWO32);
    WrapModulo(d);
  }

  lemma EncDec32(b: seq<Byte>)
    requires |b| == 4
    ensures Enc32(Dec32(b)) == b
  {
    Pow256At4();
    EncodeDecode(b);
    assert Dec32(b) % TWO32 == Decode(b);
  }

  /** The bytes below the lowest one a nonzero difference touches. */
  function LowZeros(d: nat): nat
    requires d > 0
  {
    if d % 256 != 0 then 0 else 1 + LowZeros(d / 256)
  }

  lemma {:induction false} AddTouches(n: nat, u: nat, d: nat)
    requires d > 0 && LowZeros(d) < n
    ensures forall i :: 0 <= i < LowZeros(d) ==> Encode(n, u + d)[i] == Encode(n, u)[i]
    ensures Encode(n, u + d)[LowZeros(d)] != Encode(n, u)[LowZeros(d)]
  {
    if d % 256 == 0 {
      AddTouches(n - 1, u / 256, d / 256);
      assert (u + d) / 256 == u / 256 + d / 256 && (u + d) % 256 == u % 256;
    } else {
      assert (u + d) % 256 != u % 256;
    }
  }

  lemma {:induction false} LowZerosBelow(n: nat, d: nat)
    requires 0 < d < Pow256(n)
    ensures LowZeros(d) < n
  {
    if d % 256 == 0 {
      LowZerosBelow(n - 1, d / 256);
    }
  }

  lemma {:induction false} EncodeModulo(n: nat, u: nat, q: nat)
    ensures Encode(n, u + q * Pow256(n)) == Encode(n, u)
  {
    if n > 0 {
      var x := q * Pow256(n - 1);
      Reorder(q, Pow256(n - 1));
      LowByte(u, x);
      EncodeModulo(n - 1, u / 256, q);
    }
  }

  lemma Reorder(q: nat, p: nat)
    ensures q * (256 * p) == 256 * (q * p)
  {
  }

  lemma LowByte(u: nat, x: nat)
    ensures (u + 256 * x) % 256 == u % 256 && (u + 256 * x) / 256 == u / 256 + x
  {
  }

  /** Adding d to a 32-bit field leaves its LowZeros low bytes alone and changes the next. */
  lemma AddTouches32(b: seq<Byte>, d: int)
    requires |b| == 4 && d % TWO32 != 0
    ensures var k := LowZeros(d % TWO32);
            && k < 4 && Enc32(Dec32(b) + d)[k] != b[k]
            && forall i :: 0 <= i < k ==> Enc32(Dec32(b) + d)[i] == b[i]
  {
    var u, d' := Decode(b), d % TWO32;
    EncodeDecode(b);
    Pow256At4();
    hide Decode, Encode, Pow256, LowZeros;
    LowZerosBelow(4, d');
    AddTouches(4, u, d');
    SumModulo(u, d);
    EncodeModulo(4, (Dec32(b) + d) % TWO32, (u + d') / TWO32);
  }

  lemma SumModulo(u: nat, d: int)
    requires u < TWO32
    ensures u + d % TWO32 == (Wrap32(u) + d) % TWO32 + (u + d % TWO32) / TWO32 * TWO32
  {
    var w := Wrap32(u);
    assert w == u || w == u - TWO32;
    var e := d / TWO32;
    assert w + d == (u + d % TWO32) + (if w == u then e else e - 1) * TWO32;
  }

  // ----- memory

  type Memory = seq<Byte>

  function Written(m: Memory, a: nat, b: seq<Byte>): (m': Memory)
    requires a + |b| <= |m|
    ensures |m'| == |m|
    ensures m'[a..a + |b|] == b
    ensures forall i :: 0 <= i < |m| && !(a <= i < a + |b|) ==> m'[i] == m[i]
  {
    m[..a] + b + m[a + |b|..]
  }

  /** memcpy into memory. */
  method Poke(mem: array<Byte>, a: nat, b: seq<Byte>)
    requires a + |b| <= mem.Length
    modifies mem
    ensures mem[..] == Written(old(mem[..]), a, b)
  {
    ghost var m := mem[..];
    forall i | 0 <= i < |b| { mem[a + i] := b[i]; }
    assert mem[..] == m[..a] + b + m[a + |b|..];
  }
}
