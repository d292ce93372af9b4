/** 64-bit machine words: the wrap-around operations XXH64 is built from, each with the
    operation that undoes it. */
module Words64 {
  import opened Chunks

  type U64 = bv64

  function Add(x: U64, y: U64): U64 { x + y }

  function Sub(x: U64, y: U64): U64 { x - y }

  function Xor(x: U64, y: U64): U64 { x ^ y }

  function Rotl1(x: U64): U64 { (x << 1) | (x >> 63) }

  function Rotl7(x: U64): U64 { (x << 7) | (x >> 57) }

  function Rotl11(x: U64): U64 { (x << 11) | (x >> 53) }

  function Rotl12(x: U64): U64 { (x << 12) | (x >> 52) }

  function Rotl18(x: U64): U64 { (x << 18) | (x >> 46) }

  function Rotl23(x: U64): U64 { (x << 23) | (x >> 41) }

  function Rotl27(x: U64): U64 { (x << 27) | (x >> 37) }

  function Rotl31(x: U64): U64 { (x << 31) | (x >> 33) }

  function Rotr11(x: U64): U64 { (x >> 11) | (x << 53) }

  function Rotr23(x: U64): U64 { (x >> 23) | (x << 41) }

  function Rotr27(x: U64): U64 { (x >> 27) | (x << 37) }

  function Rotr31(x: U64): U64 { (x >> 31) | (x << 33) }

  // The primes are odd, so multiplying with one is undone by multiplying with its inverse
  // modulo 2^64.

  function MulPrime1(x: U64): U64 { x * 11400714785074694791 }

  function DivPrime1(x: U64): U64 { x * 0x0887493432badb37 }

  function MulPrime2(x: U64): U64 { x * 14029467366897019727 }

  function DivPrime2(x: U64): U64 { x * 0x0ba79078168d4baf }

  function MulPrime3(x: U64): U64 { x * 1609587929392839161 }

  function DivPrime3(x: U64): U64 { x * 0xe9e9f4c41d6df849 }

  function MulPrime5(x: U64): U64 { x * 2870177450012600261 }

  function DivPrime5(x: U64): U64 { x * 0xc592c09fdfba7f0d }

  // h ^ (h >> k), and what undoes it: one more pass once k is at least half the word.

  function Fold33(x: U64): U64 { x ^ (x >> 33) }

  function Fold32(x: U64): U64 { x ^ (x >> 32) }

  function Fold29(x: U64): U64 { x ^ (x >> 29) }

  function Unfold29(x: U64): U64 { x ^ (x >> 29) ^ (x >> 58) }

  function Read64(p: seq<Byte>): U64
    requires |p| == 8
  {
    (p[0] as U64) | ((p[1] as U64) << 8) | ((p[2] as U64) << 16) | ((p[3] as U64) << 24)
    | ((p[4] as U64) << 32) | ((p[5] as U64) << 40) | ((p[6] as U64) << 48) | ((p[7] as U64) << 56)
  }

  function Read32(p: seq<Byte>): U64
    requires |p| == 4
  {
    (p[0] as U64) | ((p[1] as U64) << 8) | ((p[2] as U64) << 16) | ((p[3] as U64) << 24)
  }

  // ----- each operation is undone by its partner

  lemma MulDivPrime1(x: U64)
    ensures DivPrime1(MulPrime1(x)) == x
  {
    assert MulPrime1(x) == x * 11400714785074694791;
    assert DivPrime1(x * 11400714785074694791) == x;
  }

  lemma DivMulPrime1(x: U64)
    ensures MulPrime1(DivPrime1(x)) == x
  {
    assert DivPrime1(x) == x * 0x0887493432badb37;
    assert MulPrime1(x * 0x0887493432badb37) == x;
  }

  lemma MulDivPrime2(x: U64)
    ensures DivPrime2(MulPrime2(x)) == x
  {
    assert MulPrime2(x) == x * 14029467366897019727;
    assert DivPrime2(x * 14029467366897019727) == x;
  }

  lemma DivMulPrime2(x: U64)
    ensures MulPrime2(DivPrime2(x)) == x
  {
    assert DivPrime2(x) == x * 0x0ba79078168d4baf;
    assert MulPrime2(x * 0x0ba79078168d4baf) == x;
  }

  lemma MulDivPrime3(x: U64)
    ensures DivPrime3(MulPrime3(x)) == x
  {
    assert MulPrime3(x) == x * 1609587929392839161;
    assert DivPrime3(x * 1609587929392839161) == x;
  }

  lemma DivMulPrime3(x: U64)
    ensures MulPrime3(DivPrime3(x)) == x
  {
    assert DivPrime3(x) == x * 0xe9e9f4c41d6df849;
    assert MulPrime3(x * 0xe9e9f4c41d6df849) == x;
  }

  lemma MulDivPrime5(x: U64)
    ensures DivPrime5(MulPrime5(x)) == x
  {
    assert MulPrime5(x) == x * 2870177450012600261;
    assert DivPrime5(x * 2870177450012600261) == x;
  }

  lemma AddSub(x: U64, y: U64)
    ensures Sub(Add(x, y), y) == x && Sub(Add(x, y), x) == y
  {
    assert Add(x, y) == x + y;
    assert Sub(x + y, y) == x;
    assert Sub(x + y, x) == y;
  }

  lemma SubAdd(x: U64, y: U64)
    ensures Add(Sub(x, y), y) == x
  {
    assert Sub(x, y) == x - y;
    assert Add(x - y, y) == x;
  }

  lemma XorXor(x: U64, y: U64)
    ensures Xor(Xor(x, y), y) == x && Xor(Xor(x, y), x) == y
  {
  }

  lemma RotlRotr(x: U64)
    ensures Rotr11(Rotl11(x)) == x && Rotr23(Rotl23(x)) == x && Rotr27(Rotl27(x)) == x
    ensures Rotr31(Rotl31(x)) == x && Rotl31(Rotr31(x)) == x
  {
  }

  lemma FoldFold33(x: U64)
    ensures Fold33(Fold33(x)) == x
  {
    assert Fold33(x) == x ^ (x >> 33);
    assert Fold33(x ^ (x >> 33)) == x;
  }

  lemma FoldFold32(x: U64)
    ensures Fold32(Fold32(x)) == x
  {
    assert Fold32(x) == x ^ (x >> 32);
    assert Fold32(x ^ (x >> 32)) == x;
  }

  lemma FoldUnfold29(x: U64)
    ensures Unfold29(Fold29(x)) == x
  {
    assert Fold29(x) == x ^ (x >> 29);
    assert Unfold29(x ^ (x >> 29)) == x;
  }

  lemma UnfoldFold29(x: U64)
    ensures Fold29(Unfold29(x)) == x
  {
    assert Unfold29(x) == x ^ (x >> 29) ^ (x >> 58);
    assert Fold29(x ^ (x >> 29) ^ (x >> 58)) == x;
  }

  lemma Read64Injective(p: seq<Byte>, q: seq<Byte>)
    requires |p| == |q| == 8
    requires Read64(p) == Read64(q)
    ensures p == q
  {
  }

  lemma Read32Injective(p: seq<Byte>, q: seq<Byte>)
    requires |p| == |q| == 4
    requires Read32(p) == Read32(q)
    ensures p == q
  {
  }
}
