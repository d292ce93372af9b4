/** 32-bit machine words: the wrap-around operations XXH32 is built from, each with the
    operation that undoes it. */
module Words32 {
  import opened Chunks

  type U32 = bv32

  function Add(x: U32, y: U32): U32 { x + y }

  function Sub(x: U32, y: U32): U32 { x - y }

  function Rotl1(x: U32): U32 { (x << 1) | (x >> 31) }

  function Rotl7(x: U32): U32 { (x << 7) | (x >> 25) }

  function Rotl11(x: U32): U32 { (x << 11) | (x >> 21) }

  function Rotl12(x: U32): U32 { (x << 12) | (x >> 20) }

  function Rotl13(x: U32): U32 { (x << 13) | (x >> 19) }

  function Rotl17(x: U32): U32 { (x << 17) | (x >> 15) }

  function Rotl18(x: U32): U32 { (x << 18) | (x >> 14) }

  function Rotr11(x: U32): U32 { (x >> 11) | (x << 21) }

  function Rotr13(x: U32): U32 { (x >> 13) | (x << 19) }

  function Rotr17(x: U32): U32 { (x >> 17) | (x << 15) }

  // The primes are odd, so multiplying with one is undone by multiplying with its inverse
  // modulo 2^32.

  function MulPrime1(x: U32): U32 { x * 2654435761 }

  function DivPrime1(x: U32): U32 { x * 0x0e8b2f51 }

  function MulPrime2(x: U32): U32 { x * 2246822519 }

  function DivPrime2(x: U32): U32 { x * 0xb6c92f47 }

  function MulPrime3(x: U32): U32 { x * 3266489917 }

  function DivPrime3(x: U32): U32 { x * 0xa89ed915 }

  function MulPrime4(x: U32): U32 { x * 668265263 }

  function DivPrime4(x: U32): U32 { x * 0xa0fe3bcf }

  function MulPrime5(x: U32): U32 { x * 374761393 }

  function DivPrime5(x: U32): U32 { x * 0xae398151 }

  function Fold15(x: U32): U32 { x ^ (x >> 15) }

  function Unfold15(x: U32): U32 { x ^ (x >> 15) ^ (x >> 30) }

  function Fold13(x: U32): U32 { x ^ (x >> 13) }

  function Unfold13(x: U32): U32 { x ^ (x >> 13) ^ (x >> 26) }

  function Fold16(x: U32): U32 { x ^ (x >> 16) }

  function Read32(p: seq<Byte>): U32
    requires |p| == 4
  {
    (p[0] as U32) | ((p[1] as U32) << 8) | ((p[2] as U32) << 16) | ((p[3] as U32) << 24)
  }

  // ----- each operation is undone by its partner

  lemma MulDivPrime1(x: U32)
    ensures DivPrime1(MulPrime1(x)) == x
  {
    assert MulPrime1(x) == x * 2654435761;
    assert DivPrime1(x * 2654435761) == x;
  }

  lemma DivMulPrime1(x: U32)
    ensures MulPrime1(DivPrime1(x)) == x
  {
    assert DivPrime1(x) == x * 0x0e8b2f51;
    assert MulPrime1(x * 0x0e8b2f51) == x;
  }

  lemma MulDivPrime2(x: U32)
    ensures DivPrime2(MulPrime2(x)) == x
  {
    assert MulPrime2(x) == x * 2246822519;
    assert DivPrime2(x * 2246822519) == x;
  }

  lemma DivMulPrime2(x: U32)
    ensures MulPrime2(DivPrime2(x)) == x
  {
    assert DivPrime2(x) == x * 0xb6c92f47;
    assert MulPrime2(x * 0xb6c92f47) == x;
  }

  lemma MulDivPrime3(x: U32)
    ensures DivPrime3(MulPrime3(x)) == x
  {
    assert MulPrime3(x) == x * 3266489917;
    assert DivPrime3(x * 3266489917) == x;
  }

  lemma DivMulPrime3(x: U32)
    ensures MulPrime3(DivPrime3(x)) == x
  {
    assert DivPrime3(x) == x * 0xa89ed915;
    assert MulPrime3(x * 0xa89ed915) == x;
  }

  lemma MulDivPrime4(x: U32)
    ensures DivPrime4(MulPrime4(x)) == x
  {
    assert MulPrime4(x) == x * 668265263;
    assert DivPrime4(x * 668265263) == x;
  }

  lemma MulDivPrime5(x: U32)
    ensures DivPrime5(MulPrime5(x)) == x
  {
    assert MulPrime5(x) == x * 374761393;
    assert DivPrime5(x * 374761393) == x;
  }

  lemma AddSub(x: U32, y: U32)
    ensures Sub(Add(x, y), y) == x && Sub(Add(x, y), x) == y
  {
    assert Add(x, y) == x + y;
    assert Sub(x + y, y) == x;
    assert Sub(x + y, x) == y;
  }

  lemma SubAdd(x: U32, y: U32)
    ensures Add(Sub(x, y), y) == x && Add(y, Sub(x, y)) == x
  {
    assert Sub(x, y) == x - y;
    assert Add(x - y, y) == x;
    assert Add(y, x - y) == x;
  }

  lemma RotlRotr(x: U32)
    ensures Rotr11(Rotl11(x)) == x && Rotr17(Rotl17(x)) == x
    ensures Rotr13(Rotl13(x)) == x && Rotl13(Rotr13(x)) == x
  {
  }

  lemma Fold15Unfold15(x: U32)
    ensures Unfold15(Fold15(x)) == x
  {
    assert Fold15(x) == x ^ (x >> 15);
    assert Unfold15(x ^ (x >> 15)) == x;
  }

  lemma Unfold15Fold15(x: U32)
    ensures Fold15(Unfold15(x)) == x
  {
    assert Unfold15(x) == x ^ (x >> 15) ^ (x >> 30);
    assert Fold15(x ^ (x >> 15) ^ (x >> 30)) == x;
  }

  lemma Fold13Unfold13(x: U32)
    ensures Unfold13(Fold13(x)) == x
  {
    assert Fold13(x) == x ^ (x >> 13);
    assert Unfold13(x ^ (x >> 13)) == x;
  }

  lemma Unfold13Fold13(x: U32)
    ensures Fold13(Unfold13(x)) == x
  {
    assert Unfold13(x) == x ^ (x >> 13) ^ (x >> 26);
    assert Fold13(x ^ (x >> 13) ^ (x >> 26)) == x;
  }

  lemma Fold16Fold16(x: U32)
    ensures Fold16(Fold16(x)) == x
  {
    assert Fold16(x) == x ^ (x >> 16);
    assert Fold16(x ^ (x >> 16)) == x;
  }

  lemma Read32Injective(p: seq<Byte>, q: seq<Byte>)
    requires |p| == |q| == 4
    requires Read32(p) == Read32(q)
    ensures p == q
  {
  }
}
