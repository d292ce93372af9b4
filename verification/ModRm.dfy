/** Memory operands: what the decoder makes of ModRM, SIB and displacement in 16-, 32- and 64-bit
    addressing, and the encoding given by sections 2.1.5 and 2.2.1 of the Intel SDM, volume 2A. */
module ModRm {
  import opened Bytes

  /** A register of an operand. Gpr(64, 4) is rsp. */
  datatype Reg = NoReg | Gpr(size: nat, num: nat) | Other(cls: nat, num: nat) | Rip

  /** What decode_modrm_rm stores for a memory operand: registers, scale, the width of the
      displacement in bits, and its bytes as an unsigned number. */
  datatype Mem = Mem(base: Reg, index: Reg, scale: nat, offset: nat, lval: nat)

  // bit fields of ModRM, SIB and REX
  function Mod(b: nat): nat { b / 64 % 4 }

  function RegField(b: nat): nat { b / 8 % 8 }

  function Rm(b: nat): nat { b % 8 }

  function RexB(r: nat): nat { r % 2 }

  function RexX(r: nat): nat { r / 2 % 2 }

  function RexR(r: nat): nat { r / 4 % 2 }

  function RexW(r: nat): nat { r / 8 % 2 }

  /** (1 << s) & ~1 */
  function Scale(s: nat): nat {
    match s case 0 => 0 case 1 => 2 case 2 => 4 case _ => 8
  }

  const RSP: nat := 4
  const RBP: nat := 5
  const R13: nat := 13

  /** The width of the displacement in 64-bit addressing. */
  function Offset64(modrm: nat, rex: nat, sib: nat): (o: nat)
    ensures o == 0 || o == 8 || o == 32
  {
    var base := sib % 8 + 8 * RexB(rex);
    if Rm(modrm) == 4 && (base == RBP || base == R13) then if Mod(modrm) == 1 then 8 else 32
    else if Mod(modrm) == 1 then 8
    else if Mod(modrm) == 2 then 32
    else if Mod(modrm) == 0 && Rm(modrm) == 5 then 32
    else 0
  }

  /** In 32-bit addressing; r/m 5 without REX.B only stands for a bare one. */
  function Offset32(modrm: nat, rex: nat, sib: nat): (o: nat)
    ensures o == 0 || o == 8 || o == 32
  {
    if Rm(modrm) == 4 && sib % 8 + 8 * RexB(rex) == RBP then if Mod(modrm) == 1 then 8 else 32
    else if Mod(modrm) == 1 then 8
    else if Mod(modrm) == 2 then 32
    else if Mod(modrm) == 0 && 8 * RexB(rex) + Rm(modrm) == 5 then 32
    else 0
  }

  /** And in 16-bit addressing. */
  function Offset16(modrm: nat, rex: nat): (o: nat)
    ensures o == 0 || o == 8 || o == 16
  {
    if Mod(modrm) == 0 && 8 * RexB(rex) + Rm(modrm) == 6 then 16
    else if Mod(modrm) == 1 then 8
    else if Mod(modrm) == 2 then 16
    else 0
  }

  function Offset(adr: nat, modrm: nat, rex: nat, sib: nat): (o: nat)
    ensures o in {0, 8, 16, 32}
  {
    if adr == 64 then Offset64(modrm, rex, sib)
    else if adr == 32 then Offset32(modrm, rex, sib)
    else Offset16(modrm, rex)
  }

  /** 16-bit addressing has no SIB byte. */
  predicate HasSib(adr: nat, modrm: nat) { (adr == 64 || adr == 32) && Rm(modrm) == 4 }

  /** How many bytes follow a ModRM byte. */
  function TailLength(adr: nat, modrm: nat, rex: nat, sib: nat): nat {
    (if HasSib(adr, modrm) then 1 else 0) + Offset(adr, modrm, rex, sib) / 8
  }

  /** The operand, with the displacement bytes still to come. */
  function Mem64(modrm: nat, rex: nat, sib: nat): (m: Mem)
    ensures m.offset == Offset64(modrm, rex, sib) && m.lval == 0
  {
    var offset := Offset64(modrm, rex, sib);
    if Rm(modrm) == 4 then
      var index, base := RegField(sib) + 8 * RexX(rex), sib % 8 + 8 * RexB(rex);
      Mem(
        if (base == RBP || base == R13) && Mod(modrm) == 0 then NoReg else Gpr(64, base),
        if index == RSP then NoReg else Gpr(64, index),
        if index == RSP then 0 else Scale(sib / 64),
        offset, 0)
    else if Mod(modrm) == 0 && Rm(modrm) == 5 then Mem(Rip, NoReg, 0, offset, 0)
    else Mem(Gpr(64, Rm(modrm) + 8 * RexB(rex)), NoReg, 0, offset, 0)
  }

  function Mem32(modrm: nat, rex: nat, sib: nat): (m: Mem)
    ensures m.offset == Offset32(modrm, rex, sib) && m.lval == 0
  {
    var offset := Offset32(modrm, rex, sib);
    if Rm(modrm) == 4 then
      var index, base := RegField(sib) + 8 * RexX(rex), sib % 8 + 8 * RexB(rex);
      Mem(
        if base == RBP && Mod(modrm) == 0 then NoReg else Gpr(32, base),
        if index == RSP then NoReg else Gpr(32, index),
        if index == RSP then 0 else Scale(sib / 64),
        offset, 0)
    else if Mod(modrm) == 0 && 8 * RexB(rex) + Rm(modrm) == 5 then Mem(NoReg, NoReg, 0, offset, 0)
    else Mem(Gpr(32, Rm(modrm) + 8 * RexB(rex)), NoReg, 0, offset, 0)
  }

  const BX: nat := 3
  const BP: nat := 5
  const SI: nat := 6
  const DI: nat := 7

  function Mem16(modrm: nat, rex: nat): (m: Mem)
    ensures m.offset == Offset16(modrm, rex) && m.lval == 0
  {
    var offset := Offset16(modrm, rex);
    var base := [BX, BX, BP, BP, SI, DI, BP, BX][Rm(modrm)];
    var index := [Gpr(16, SI), Gpr(16, DI), Gpr(16, SI), Gpr(16, DI), NoReg, NoReg, NoReg, NoReg][Rm(modrm)];
    Mem(if Mod(modrm) == 0 && 8 * RexB(rex) + Rm(modrm) == 6 then NoReg else Gpr(16, base), index, 0, offset, 0)
  }

  function MemOf(adr: nat, modrm: nat, rex: nat, sib: nat): Mem {
    if adr == 64 then Mem64(modrm, rex, sib) else if adr == 32 then Mem32(modrm, rex, sib) else Mem16(modrm, rex)
  }

  /** All of it, from the bytes behind the ModRM byte. */
  function Decoded(adr: nat, modrm: nat, rex: nat, tail: seq<Byte>): (m: Mem) {
    var sib := if HasSib(adr, modrm) && tail != [] then tail[0] else 0;
    var disp := if HasSib(adr, modrm) && tail != [] then tail[1..] else tail;
    MemOf(adr, modrm, rex, sib).(lval := Decode(disp))
  }

  // ----- the addressing forms and their encodings

  datatype Disp = NoDisp | Disp8(d: nat) | Disp16(d: nat) | Disp32(d: nat)

  datatype Index = NoIndex | Index(num: nat, log: nat)

  /** [rip + d], [d + index], or [base + index + d]. */
  datatype Form =
    | RipRelative(d: nat)
    | NoBase(index: Index, d: nat)
    | Based(base: nat, index: Index, disp: Disp)

  predicate GoodIndex(i: Index) { i.Index? ==> i.num < 16 && i.num != RSP && i.log < 4 }

  /** The displacements of an address size. */
  predicate GoodDisp(adr: nat, d: Disp) {
    match d
    case NoDisp => true
    case Disp8(x) => x < 256
    case Disp16(x) => adr == 16 && x < 65536
    case Disp32(x) => adr != 16 && x < TWO32
  }

  /** The forms that exist: with 64 bits, rip; in 32- and 64-bit addressing esp or rsp is no index, and
      rbp and r13 as base need a displacement; in 16-bit addressing bx and bp are bases, si and di
      indices, each of the four may stand alone, bp only with a displacement. */
  predicate Good(adr: nat, f: Form) {
    if adr == 16 then
      match f
      case RipRelative(_) => false
      case NoBase(index, d) => index.NoIndex? && d < 65536
      case Based(base, index, disp) =>
        && GoodDisp(adr, disp)
        && if index.Index? then base in {BX, BP} && index.num in {SI, DI} && index.log == 0
           else base in {BX, BP, SI, DI} && (base == BP ==> disp != NoDisp)
    else
      match f
      case RipRelative(d) => adr == 64 && d < TWO32
      case NoBase(index, d) => GoodIndex(index) && d < TWO32
      case Based(base, index, disp) =>
        base < 16 && GoodIndex(index) && GoodDisp(adr, disp) && (base % 8 == 5 ==> disp != NoDisp)
  }

  /** The bytes: REX.XB bits, mod, r/m, SIB byte if any, displacement. */
  datatype Code = Code(rex: nat, mod: nat, rm: nat, tail: seq<Byte>)

  function SibByte(index: Index, base: nat): Byte
    requires GoodIndex(index) && base < 8
  {
    match index
    case NoIndex => 8 * 4 + base
    case Index(num, log) => 64 * log + 8 * (num % 8) + base
  }

  function IndexBit(index: Index): nat
    requires GoodIndex(index)
  {
    if index.Index? then 2 * (index.num / 8) else 0
  }

  function ModOf(d: Disp): nat {
    match d case NoDisp => 0 case Disp8(_) => 1 case _ => 2
  }

  function DispBytes(d: Disp): seq<Byte> {
    match d
    case NoDisp => []
    case Disp8(x) => Encode(1, x)
    case Disp16(x) => Encode(2, x)
    case Disp32(x) => Encode(4, x)
  }

  /** Whether an encoding may, and must, have a SIB byte: never in 16-bit addressing and for rip; always for an
      index, for esp, rsp, r12d and r12 as base, and for no base in 64-bit addressing. */
  predicate Sibs(adr: nat, f: Form, sib: bool) {
    match f
    case RipRelative(_) => !sib
    case NoBase(index, _) => if adr == 16 then !sib else index.Index? || adr == 64 ==> sib
    case Based(base, index, _) => if adr == 16 then !sib else index.Index? || base % 8 == 4 ==> sib
  }

  /** r/m of the sixteen bit forms. */
  function Rm16(base: nat, index: Index): nat {
    if index.Index? then (if base == BX then 0 else 2) + (if index.num == SI then 0 else 1)
    else if base == SI then 4 else if base == DI then 5 else if base == BP then 6 else 7
  }

  /** The encodings of a form: with a SIB byte wherever one is needed, and optionally elsewhere. */
  function Encoded(adr: nat, f: Form, sib: bool): Code
    requires Good(adr, f) && Sibs(adr, f, sib)
  {
    match f
    case RipRelative(d) => Code(0, 0, 5, Encode(4, d))
    case NoBase(index, d) =>
      if sib then Code(IndexBit(index), 0, 4, [SibByte(index, 5)] + Encode(4, d))
      else if adr == 16 then Code(0, 0, 6, Encode(2, d))
      else Code(0, 0, 5, Encode(4, d))
    case Based(base, index, disp) =>
      if sib then Code(base / 8 + IndexBit(index), ModOf(disp), 4, [SibByte(index, base % 8)] + DispBytes(disp))
      else if adr == 16 then Code(0, ModOf(disp), Rm16(base, index), DispBytes(disp))
      else Code(base / 8, ModOf(disp), base % 8, DispBytes(disp))
  }

  function DispOf(adr: nat, f: Form): Disp {
    match f
    case RipRelative(d) => Disp32(d)
    case NoBase(_, d) => if adr == 16 then Disp16(d) else Disp32(d)
    case Based(_, _, disp) => disp
  }

  function Bits(d: Disp): nat {
    match d case NoDisp => 0 case Disp8(_) => 8 case Disp16(_) => 16 case Disp32(_) => 32
  }

  function Value(d: Disp): nat {
    match d case NoDisp => 0 case Disp8(x) => x case Disp16(x) => x case Disp32(x) => x
  }

  /** The factor 2, 4 or 8, or 0 for none. */
  function FactorOf(log: nat): nat { if log == 0 then 0 else if log == 1 then 2 else 2 * FactorOf(log - 1) }

  /** What the operand should be. */
  function Meant(adr: nat, f: Form): Mem {
    var index := match f case RipRelative(_) => NoIndex case NoBase(i, _) => i case Based(_, i, _) => i;
    Mem(
      match f case RipRelative(_) => Rip case NoBase(_, _) => NoReg case Based(b, _, _) => Gpr(adr, b),
      match index case NoIndex => NoReg case Index(num, _) => Gpr(adr, num),
      match index case NoIndex => 0 case Index(_, log) => FactorOf(log),
      Bits(DispOf(adr, f)), Value(DispOf(adr, f)))
  }

  lemma ModRmFields(mod: nat, reg: nat, rm: nat)
    requires mod < 4 && reg < 8 && rm < 8
    ensures var b := 64 * mod + 8 * reg + rm; b < 256 && Mod(b) == mod && RegField(b) == reg && Rm(b) == rm
  {
  }

  lemma SibFields(index: Index, base: nat)
    requires GoodIndex(index) && base < 8
    ensures var s := SibByte(index, base);
            && s % 8 == base
            && (index.NoIndex? ==> RegField(s) == 4)
            && (index.Index? ==> RegField(s) == index.num % 8 && s / 64 == index.log)
  {
    hide RegField, Mod, Rm;
    match index
    case NoIndex => ModRmFields(0, 4, base); SibLow(0, 4, base);
    case Index(num, log) => ModRmFields(log, num % 8, base); SibLow(log, num % 8, base);
  }

  lemma SibLow(log: nat, num: nat, base: nat)
    requires log < 4 && num < 8 && base < 8
    ensures (64 * log + 8 * num + base) % 8 == base && (64 * log + 8 * num + base) / 64 == log
  {
  }

  lemma DispLength(adr: nat, d: Disp)
    requires GoodDisp(adr, d)
    ensures |DispBytes(d)| == Bits(d) / 8 && Decode(DispBytes(d)) == Value(d)
  {
    hide Encode, Decode;
    match d
    case NoDisp => assert Decode([]) == 0 by { NothingDecoded(); }
    case Disp8(x) => assert Pow256(1) == 256; DecodeEncode(1, x);
    case Disp16(x) => assert Pow256(1) == 256 && Pow256(2) == 65536; DecodeEncode(2, x);
    case Disp32(x) => Pow256At4(); DecodeEncode(4, x);
  }

  lemma NothingDecoded()
    ensures Decode([]) == 0
  {
  }

  lemma RexFields(wr: nat, x: nat, b: nat)
    requires x < 2 && b < 2
    ensures var r := 4 * wr + (b + 2 * x); RexB(r) == b && RexX(r) == x
  {
    var r := 4 * wr + (b + 2 * x);
    assert r == 2 * (2 * wr + x) + b;
    assert r / 2 == 2 * wr + x;
  }

  /** The bits of a prefix with top bits a. */
  lemma RexBits(a: nat, w: nat, r: nat, x: nat, b: nat)
    requires a < 2 && w < 2 && r < 2 && x < 2 && b < 2
    ensures var p := 64 * a + 8 * w + 4 * r + 2 * x + b;
            RexW(p) == w && RexR(p) == r && RexX(p) == x && RexB(p) == b && p / 64 == a
  {
    var p := 64 * a + 8 * w + 4 * r + 2 * x + b;
    assert p / 8 == 8 * a + w && p / 4 == 16 * a + 2 * w + r && p / 2 == 32 * a + 4 * w + 2 * r + x;
  }

  /** Without a SIB byte, what stands behind the ModRM byte does not matter. */
  lemma SibUnused(adr: nat, modrm: nat, rex: nat, x: nat, y: nat)
    requires !HasSib(adr, modrm)
    ensures Offset(adr, modrm, rex, x) == Offset(adr, modrm, rex, y)
  {
  }

  /** A register number, from its low bits and its REX bit. */
  lemma Number(n: nat)
    requires n < 16
    ensures n / 8 < 2 && n % 8 + 8 * (n / 8) == n
  {
  }

  /** The fields of the ModRM byte are those of the encoding, and so are the REX bits, where they
      have a meaning: X with a SIB byte, B with a base. Outside 64-bit mode there is no REX prefix. */
  predicate Carries(adr: nat, f: Form, sib: bool, modrm: nat, rex: nat)
    requires Good(adr, f) && Sibs(adr, f, sib)
  {
    var c := Encoded(adr, f, sib);
    && Mod(modrm) == c.mod && Rm(modrm) == c.rm && (sib ==> RexX(rex) == c.rex / 2)
    && (f.Based? || adr == 16 ==> RexB(rex) == c.rex % 2)
  }

  /** The decoder's view of the tail is the form. */
  predicate Decodes(adr: nat, f: Form, c: Code, modrm: nat, rex: nat) {
    && |c.tail| == TailLength(adr, modrm, rex, if HasSib(adr, modrm) && c.tail != [] then c.tail[0] else 0)
    && Decoded(adr, modrm, rex, c.tail) == Meant(adr, f)
  }

  lemma RipSuffices(f: Form, modrm: nat, rex: nat)
    requires Good(64, f) && f.RipRelative? && Carries(64, f, false, modrm, rex)
    ensures Decodes(64, f, Encoded(64, f, false), modrm, rex)
  {
    DispLength(64, Disp32(f.d));
    hide Mod, Rm, RexB, RexX, Encode, Decode, RegField;
  }

  lemma Bare32(f: Form, modrm: nat, rex: nat)
    requires Good(32, f) && f.NoBase? && f.index.NoIndex? && Carries(32, f, false, modrm, rex)
    ensures Decodes(32, f, Encoded(32, f, false), modrm, rex) <==> RexB(rex) == 0
  {
    DispLength(32, Disp32(f.d));
    hide Mod, Rm, RexX, Encode, Decode, RegField;
  }

  lemma NoBaseSuffices(f: Form, modrm: nat, rex: nat)
    requires Good(64, f) && f.NoBase? && Carries(64, f, true, modrm, rex)
    ensures Decodes(64, f, Encoded(64, f, true), modrm, rex)
  {
    NoBaseTail(64, f);
    hide Mod, Rm, RexX, Encode, Decode, RegField, SibByte;
  }

  lemma NoBase32(f: Form, modrm: nat, rex: nat)
    requires Good(32, f) && f.NoBase? && Carries(32, f, true, modrm, rex)
    ensures Decodes(32, f, Encoded(32, f, true), modrm, rex) <==> RexB(rex) == 0
  {
    NoBaseTail(32, f);
    hide Mod, Rm, RexX, Encode, Decode, RegField, SibByte;
  }

  lemma NoBaseTail(adr: nat, f: Form)
    requires adr in {32, 64} && Good(adr, f) && f.NoBase?
    ensures var tail := Encoded(adr, f, true).tail;
            && |tail| == 5 && tail[0] == SibByte(f.index, 5) && Decode(tail[1..]) == f.d && tail[0] % 8 == 5
            && (f.index.NoIndex? ==> RegField(tail[0]) == 4)
            && (f.index.Index? ==>
                  && RegField(tail[0]) == f.index.num % 8 && tail[0] / 64 == f.index.log
                  && f.index.num % 8 + 8 * (f.index.num / 8) == f.index.num)
  {
    SibFields(f.index, 5);
    DispLength(adr, Disp32(f.d));
    if f.index.Index? { Number(f.index.num); }
    hide Encode, Decode, RegField, SibByte;
    assert Encoded(adr, f, true).tail[1..] == Encode(4, f.d);
  }

  lemma Sib64(f: Form, modrm: nat, rex: nat)
    requires Good(64, f) && f.Based? && Carries(64, f, true, modrm, rex)
    ensures Decodes(64, f, Encoded(64, f, true), modrm, rex)
  {
    hide Mod, Rm, RexB, RexX, Encode, Decode, RegField, SibByte, DispBytes, Scale, Mem64;
    BasedTail(64, f);
    Based64(f, modrm, rex);
  }

  lemma Based64(f: Form, modrm: nat, rex: nat)
    requires Good(64, f) && f.Based? && Carries(64, f, true, modrm, rex)
    ensures var c := Encoded(64, f, true);
            c.tail != [] && Mem64(modrm, rex, c.tail[0]) == Meant(64, f).(lval := 0)
  {
    hide Mod, Rm, RexB, RexX, Encode, Decode, RegField, SibByte, DispBytes;
    BasedTail(64, f);
  }

  lemma Sib32(f: Form, modrm: nat, rex: nat)
    requires Good(32, f) && f.Based? && Carries(32, f, true, modrm, rex)
    ensures Decodes(32, f, Encoded(32, f, true), modrm, rex)
  {
    hide Mod, Rm, RexB, RexX, Encode, Decode, RegField, SibByte, DispBytes, Scale, Mem32;
    BasedTail(32, f);
    Based32(f, modrm, rex);
  }

  lemma Based32(f: Form, modrm: nat, rex: nat)
    requires Good(32, f) && f.Based? && Carries(32, f, true, modrm, rex)
    ensures var c := Encoded(32, f, true);
            c.tail != [] && Mem32(modrm, rex, c.tail[0]) == Meant(32, f).(lval := 0)
  {
    hide Mod, Rm, RexB, RexX, Encode, Decode, RegField, SibByte, DispBytes;
    BasedTail(32, f);
  }

  lemma BasedTail(adr: nat, f: Form)
    requires adr in {32, 64} && Good(adr, f) && f.Based? && Sibs(adr, f, true)
    ensures var c := Encoded(adr, f, true);
            && |c.tail| == 1 + Bits(f.disp) / 8 && Decode(c.tail[1..]) == Value(f.disp)
            && c.tail[0] % 8 == f.base % 8 && c.rex % 2 == f.base / 8 && c.rex / 2 == IndexBit(f.index) / 2
            && f.base % 8 + 8 * (f.base / 8) == f.base
            && (f.index.NoIndex? ==> RegField(c.tail[0]) == 4)
            && (f.index.Index? ==>
                  && RegField(c.tail[0]) == f.index.num % 8 && c.tail[0] / 64 == f.index.log
                  && f.index.num % 8 + 8 * (f.index.num / 8) == f.index.num)
  {
    SibFields(f.index, f.base % 8);
    DispLength(adr, f.disp);
    Number(f.base);
    if f.index.Index? { Number(f.index.num); }
    hide Encode, Decode, RegField, SibByte, DispBytes;
    assert Encoded(adr, f, true).tail[1..] == DispBytes(f.disp);
  }

  lemma PlainSuffices(adr: nat, f: Form, modrm: nat, rex: nat)
    requires adr in {32, 64} && Good(adr, f) && f.Based? && Sibs(adr, f, false) && Carries(adr, f, false, modrm, rex)
    ensures Decodes(adr, f, Encoded(adr, f, false), modrm, rex)
  {
    DispLength(adr, f.disp);
    Number(f.base);
    hide Mod, Rm, RexB, RexX, Encode, Decode, RegField, DispBytes;
  }

  lemma Suffices16(f: Form, modrm: nat, rex: nat)
    requires Good(16, f) && Carries(16, f, false, modrm, rex)
    ensures Decodes(16, f, Encoded(16, f, false), modrm, rex)
  {
    DispLength(16, DispOf(16, f));
    hide Mod, RexB, RexX, Encode, Decode, RegField, DispBytes;
  }

  /** For every address size, every form and each of its encodings, with any reg field, any REX.W and
      REX.R, and whatever the REX bits without meaning are: the decoder takes exactly the bytes of the
      encoding and stores the operand meant, if and only if it is not a form without base in
      32-bit addressing with REX.B set, which it takes for one with base r13d. */
  lemma RoundTrip(adr: nat, f: Form, sib: bool, modrm: nat, rex: nat)
    requires adr in {16, 32, 64} && Good(adr, f) && Sibs(adr, f, sib) && Carries(adr, f, sib, modrm, rex)
    ensures Decodes(adr, f, Encoded(adr, f, sib), modrm, rex) <==> !(adr == 32 && f.NoBase? && RexB(rex) == 1)
  {
    hide Mod, Rm, RexX, RegField, Decoded, Meant, TailLength, HasSib, SibByte, DispBytes, Carries, Decodes, Encoded;
    if adr == 16 {
      Suffices16(f, modrm, rex);
    } else if f.RipRelative? {
      RipSuffices(f, modrm, rex);
    } else if f.Based? {
      if sib {
        if adr == 64 {
          Sib64(f, modrm, rex);
        } else {
          Sib32(f, modrm, rex);
        }
      } else {
        PlainSuffices(adr, f, modrm, rex);
      }
    } else if adr == 64 {
      NoBaseSuffices(f, modrm, rex);
    } else if sib {
      NoBase32(f, modrm, rex);
    } else {
      Bare32(f, modrm, rex);
    }
  }

  lemma CodeFields(adr: nat, f: Form, sib: bool)
    requires Good(adr, f) && Sibs(adr, f, sib)
    ensures var c := Encoded(adr, f, sib);
            && c.mod < 3 && c.rm < 8 && c.rex < 4
            && (adr == 16 ==> c.rex == 0)
            && (!f.Based? ==> c.rex % 2 == 0)
  {
    hide SibByte, DispBytes, Encode;
    if f.Based? && adr != 16 { Number(f.base); }
    if f.NoBase? && f.index.Index? && adr != 16 { Number(f.index.num); }
    if f.Based? && f.index.Index? && adr != 16 { Number(f.index.num); }
  }

  /** The bytes of an encoding carry it. */
  lemma EncodingCarries(adr: nat, f: Form, sib: bool, reg: nat, rexWR: nat)
    requires Good(adr, f) && Sibs(adr, f, sib) && reg < 8
    ensures var c := Encoded(adr, f, sib);
            var modrm, rex := 64 * c.mod + 8 * reg + c.rm, 4 * rexWR + c.rex;
            && modrm < 192 && Mod(modrm) == c.mod && RegField(modrm) == reg && Rm(modrm) == c.rm
            && RexB(rex) == c.rex % 2 && RexX(rex) == c.rex / 2 && Carries(adr, f, sib, modrm, rex)
  {
    var c := Encoded(adr, f, sib);
    hide Mod, Rm, RexB, RexX, RegField, Encoded;
    CodeFields(adr, f, sib);
    ModRmFields(c.mod, reg, c.rm);
    RexFields(rexWR, c.rex / 2, c.rex % 2);
  }

  /** The operand tells the forms apart. */
  lemma MeantInjective(adr: nat, f: Form, g: Form)
    requires Good(adr, f) && Good(adr, g) && Meant(adr, f) == Meant(adr, g)
    ensures f == g
  {
  }

  /** The failing input: r/m 5 with mod 0 and REX.B, a bare displacement of four bytes, is taken for r13d
      without displacement. */
  lemma Bare32Lost(reg: nat, rex: nat, x: nat)
    requires reg < 8 && RexB(rex) == 1
    ensures var modrm := 8 * reg + 5;
            TailLength(32, modrm, rex, x) == 0 && Decoded(32, modrm, rex, []) == Mem(Gpr(32, R13), NoReg, 0, 0, 0)
  {
    ModRmFields(0, reg, 5);
  }

  /** The displacement by mod: none, eight bits, or the full width of the address size. */
  function DispBy(adr: nat, mod: nat, d: nat): Disp {
    if mod == 0 then NoDisp else if mod == 1 then Disp8(d) else if adr == 16 then Disp16(d) else Disp32(d)
  }

  /** The form that ModRM, REX and SIB stand for, with displacement d. */
  function FormOf(adr: nat, modrm: nat, rex: nat, sib: nat, d: nat): Form {
    var disp := DispBy(adr, Mod(modrm), d);
    if adr == 16 then
      if Mod(modrm) == 0 && Rm(modrm) == 6 then NoBase(NoIndex, d)
      else
        var base := match Rm(modrm) case 0 => BX case 1 => BX case 2 => BP case 3 => BP case 4 => SI case 5 => DI
                    case 6 => BP case _ => BX;
        var index := match Rm(modrm) case 0 => Index(SI, 0) case 1 => Index(DI, 0) case 2 => Index(SI, 0)
                     case 3 => Index(DI, 0) case _ => NoIndex;
        Based(base, index, disp)
    else if Rm(modrm) == 4 then
      var num, base := RegField(sib) + 8 * RexX(rex), sib % 8 + 8 * RexB(rex);
      var index := if num == RSP then NoIndex else Index(num, sib / 64);
      if Mod(modrm) == 0 && sib % 8 == 5 then NoBase(index, d) else Based(base, index, disp)
    else if Mod(modrm) == 0 && Rm(modrm) == 5 then if adr == 64 then RipRelative(d) else NoBase(NoIndex, d)
    else Based(Rm(modrm) + 8 * RexB(rex), NoIndex, disp)
  }

  /** No operand is missing from the forms: whatever bytes a ModRM byte for memory is followed by, what the
      decoder makes of them is what a form means, but for the case of REX.B in 32-bit addressing. */
  lemma EveryOperand(adr: nat, modrm: nat, rex: nat, tail: seq<Byte>)
    requires adr in {16, 32, 64} && Mod(modrm) != 3 && (adr == 16 ==> RexB(rex) == 0)
    requires |tail| == TailLength(adr, modrm, rex, if HasSib(adr, modrm) && tail != [] then tail[0] else 0)
    requires var sib := if HasSib(adr, modrm) && tail != [] then tail[0] else 0;
             adr == 32 && RexB(rex) == 1 && Mod(modrm) == 0 ==>
               Rm(modrm) != 5 && (Rm(modrm) == 4 ==> sib % 8 != 5)
    ensures var sib := if HasSib(adr, modrm) && tail != [] then tail[0] else 0;
            var disp := if HasSib(adr, modrm) && tail != [] then tail[1..] else tail;
            var f := FormOf(adr, modrm, rex, sib, Decode(disp));
            Good(adr, f) && Decoded(adr, modrm, rex, tail) == Meant(adr, f)
  {
    hide Decode, Mod, Rm, RegField, RexB, RexX;
    var sib := if HasSib(adr, modrm) && tail != [] then tail[0] else 0;
    var disp := if HasSib(adr, modrm) && tail != [] then tail[1..] else tail;
    DispFits(disp);
    FieldsFit(modrm, rex, sib);
  }

  lemma FieldsFit(modrm: nat, rex: nat, sib: nat)
    ensures Mod(modrm) < 4 && Rm(modrm) < 8 && RegField(sib) < 8 && RexB(rex) < 2 && RexX(rex) < 2
  {
  }

  lemma DispFits(disp: seq<Byte>)
    ensures disp == [] ==> Decode(disp) == 0
    ensures |disp| == 1 ==> Decode(disp) < 256
    ensures |disp| == 2 ==> Decode(disp) < 65536
    ensures |disp| == 4 ==> Decode(disp) < TWO32
  {
    EncodeDecode(disp);
    Pow256At4();
    assert Pow256(1) == 256 && Pow256(2) == 65536;
  }
}
