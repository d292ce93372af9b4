/** Whole instructions: what the decoder makes of the bytes an instruction is written down with. */
module Assembler {
  import opened Bytes
  import opened ModRm
  import opened Tables
  import opened Walk
  import opened Encodings
  import Decoder

  /** The operand in the r/m field. */
  datatype Place = InMemory(form: Form, sib: bool) | InRegister(num: nat)

  /** An instruction with an operand in the reg and one in the r/m field, and perhaps an immediate. */
  datatype Asm = Asm(prefixes: seq<Byte>, rex: bool, w: nat, opcode: Byte, reg: nat, rm: Place, imm: nat)

  /** Segment, size, lock and string prefixes. */
  predicate LegacyByte(b: Byte) { b in {0x26, 0x2E, 0x36, 0x3E, 0x64, 0x65, 0x66, 0x67, 0xF0, 0xF2, 0xF3} }

  predicate Legacy(p: seq<Byte>) { forall i :: 0 <= i < |p| ==> LegacyByte(p[i]) }

  function AdrOf(dis: nat, a: Asm): nat { AddressBits(dis, 0x67 in a.prefixes) }

  predicate GoodPlace(adr: nat, p: Place) {
    match p
    case InMemory(f, sib) => Good(adr, f) && Sibs(adr, f, sib)
    case InRegister(n) => n < 16
  }

  function PlaceCode(adr: nat, p: Place): Code
    requires GoodPlace(adr, p)
  {
    match p
    case InMemory(f, sib) => Encoded(adr, f, sib)
    case InRegister(n) => Code(n / 8, 3, n % 8, [])
  }

  /** What can be written down: without a REX prefix only its zero bits, and it is for 64-bit mode. */
  predicate GoodAsm(dis: nat, a: Asm) {
    && dis in {16, 32, 64} && Legacy(a.prefixes) && |a.prefixes| <= 12
    && !LegacyByte(a.opcode) && (dis == 64 ==> a.opcode < 0x40 || 0x50 <= a.opcode)
    && a.w < 2 && a.reg < 16 && GoodPlace(AdrOf(dis, a), a.rm)
    && (if a.rex then dis == 64 else a.w == 0 && a.reg < 8 && PlaceCode(AdrOf(dis, a), a.rm).rex == 0)
  }

  /** All prefixes. */
  function AllPrefixes(dis: nat, a: Asm): (p: seq<Byte>)
    requires GoodAsm(dis, a)
  {
    var rm := PlaceCode(AdrOf(dis, a), a.rm).rex;
    PlaceFields(AdrOf(dis, a), a.rm);
    if a.rex then a.prefixes + [Rex(a.w, a.reg / 8, rm / 2, rm % 2)] else a.prefixes
  }

  function ModRmByte(dis: nat, a: Asm): Byte
    requires GoodAsm(dis, a)
  {
    var c := PlaceCode(AdrOf(dis, a), a.rm);
    PlaceFields(AdrOf(dis, a), a.rm);
    64 * c.mod + 8 * (a.reg % 8) + c.rm
  }

  lemma PlaceFields(adr: nat, p: Place)
    requires GoodPlace(adr, p)
    ensures var c := PlaceCode(adr, p);
            c.mod < 4 && c.rm < 8 && c.rex < 4 && (c.mod == 3 <==> p.InRegister?)
  {
    hide Encoded;
    if p.InMemory? {
      CodeFields(adr, p.form, p.sib);
    }
  }

  /** An instruction table entry with a register or memory operand, a register operand, in either order and
      of the operand size, and at most an immediate of 16 or 32 bits; no REX bit is masked. */
  predicate TwoOperands(e: Entry) {
    && ((e.op1.code.OP_E? && e.op2.code.OP_G?) || (e.op1.code.OP_G? && e.op2.code.OP_E?))
    && e.op1.size == e.op2.size == 2 && (e.op3 == EntryOperand(OP_NONE, 0) || e.op3 == EntryOperand(OP_I, 1))
    && e.mnemonic.Mother? && !e.inv64
    && RexW(e.rexMask) == RexR(e.rexMask) == RexX(e.rexMask) == RexB(e.rexMask) == 1
  }

  function SizeMeant(dis: nat, e: Entry, a: Asm): nat { OperandBits(dis, a.w == 1, 0x66 in a.prefixes, e.def64) }

  function ImmediateBytes(dis: nat, e: Entry, a: Asm): nat {
    if e.op3.code.OP_NONE? then 0 else if SizeMeant(dis, e, a) == 16 then 2 else 4
  }

  /** The bytes of the instruction. */
  function Assembled(dis: nat, e: Entry, a: Asm): seq<Byte>
    requires GoodAsm(dis, a)
  {
    AllPrefixes(dis, a) + ([a.opcode, ModRmByte(dis, a)]
    + (PlaceCode(AdrOf(dis, a), a.rm).tail + Encode(ImmediateBytes(dis, e, a), a.imm)))
  }

  function PlaceMeant(dis: nat, e: Entry, a: Asm): Operand {
    var size := SizeMeant(dis, e, a);
    match a.rm
    case InMemory(f, _) => Operand(OpMem, size, Meant(AdrOf(dis, a), f))
    case InRegister(n) => Operand(OpReg, size, NO_MEM.(base := Gpr(size, n)))
  }

  function RegisterMeant(dis: nat, e: Entry, a: Asm): Operand {
    var size := SizeMeant(dis, e, a);
    Operand(OpReg, size, NO_MEM.(base := Gpr(size, a.reg)))
  }

  function ImmediateMeant(dis: nat, e: Entry, a: Asm): Operand {
    if e.op3.code.OP_NONE? then NO_OPERAND
    else Operand(OpImm, 8 * ImmediateBytes(dis, e, a), NO_MEM.(lval := a.imm))
  }

  /** The operands that are meant. */
  function OperandsMeant(dis: nat, e: Entry, a: Asm): seq<Operand> {
    if e.op1.code.OP_E? then [PlaceMeant(dis, e, a), RegisterMeant(dis, e, a), ImmediateMeant(dis, e, a)]
    else [RegisterMeant(dis, e, a), PlaceMeant(dis, e, a), ImmediateMeant(dis, e, a)]
  }

  // ----- prefixes

  lemma LegacyPrefixes(dis: nat, p: seq<Byte>)
    requires Legacy(p)
    ensures Prefixes(dis, p) && !IsRex(dis, LastOf(p))
  {
    if p != [] {
      assert p[|p| - 1] / 16 != 4;
    }
  }

  lemma PrefixesOf(dis: nat, a: Asm)
    requires GoodAsm(dis, a)
    ensures var p, rm := AllPrefixes(dis, a), PlaceCode(AdrOf(dis, a), a.rm).rex;
            && Prefixes(dis, p) && |p| <= 13
            && (0x66 in p <==> 0x66 in a.prefixes) && (0x67 in p <==> 0x67 in a.prefixes)
            && (if a.rex then IsRex(dis, LastOf(p)) && LastOf(p) == Rex(a.w, a.reg / 8, rm / 2, rm % 2)
                else !IsRex(dis, LastOf(p)))
  {
    hide PlaceCode, Legacy, Prefixes, IsPrefix, LastOf;
    LegacyPrefixes(dis, a.prefixes);
    PlaceFields(AdrOf(dis, a), a.rm);
    if a.rex {
      var rm := PlaceCode(AdrOf(dis, a), a.rm).rex;
      var b := Rex(a.w, a.reg / 8, rm / 2, rm % 2);
      IsPrefixByte(dis, b);
      OneMorePrefix(dis, a.prefixes, b);
    }
  }

  lemma NoPrefix(dis: nat, b: Byte)
    requires !LegacyByte(b) && (dis == 64 ==> b < 0x40 || 0x50 <= b)
    ensures !IsPrefix(dis, b)
  {
  }

  lemma IsPrefixByte(dis: nat, b: Byte)
    requires dis == 64 && 64 <= b < 80
    ensures IsRex(dis, b) && IsPrefix(dis, b)
  {
  }

  // ----- the walk, and the modes

  /** The instruction stands at start. */
  predicate StandsAt(s: Setup, start: nat, e: Entry, a: Asm)
    requires GoodAsm(s.dis, a)
  {
    var code := Assembled(s.dis, e, a);
    start + |code| <= |s.buf| && s.buf[start..start + |code|] == code
  }

  /** Its parts. */
  lemma PartsStand(s: Setup, start: nat, e: Entry, a: Asm)
    requires GoodAsm(s.dis, a) && StandsAt(s, start, e, a)
    ensures var p, tail := AllPrefixes(s.dis, a), PlaceCode(AdrOf(s.dis, a), a.rm).tail;
            var k, n := ImmediateBytes(s.dis, e, a), start + |p| + 2;
            && n + |tail| + k <= |s.buf| && |Assembled(s.dis, e, a)| == |p| + 2 + |tail| + k
            && s.buf[start..start + |p|] == p && s.buf[start + |p|] == a.opcode
            && s.buf[start + |p| + 1] == ModRmByte(s.dis, a)
            && s.buf[n..n + |tail|] == tail && s.buf[n + |tail|..n + |tail| + k] == Encode(k, a.imm)
  {
    hide AllPrefixes, PlaceCode, ModRmByte, ImmediateBytes, AdrOf, Encode;
    Parts(s.buf, start, AllPrefixes(s.dis, a), a.opcode, ModRmByte(s.dis, a), PlaceCode(AdrOf(s.dis, a), a.rm).tail,
          Encode(ImmediateBytes(s.dis, e, a), a.imm));
  }

  lemma Parts(buf: seq<Byte>, start: nat, p: seq<Byte>, x: Byte, y: Byte, tail: seq<Byte>, imm: seq<Byte>)
    requires var code := p + ([x, y] + (tail + imm));
             start + |code| <= |buf| && buf[start..start + |code|] == code
    ensures var n := start + |p| + 2;
            && n + |tail| + |imm| <= |buf| && buf[start..start + |p|] == p
            && buf[start + |p|] == x && buf[start + |p| + 1] == y
            && buf[n..n + |tail|] == tail && buf[n + |tail|..n + |tail| + |imm|] == imm
  {
    var n := start + |p|;
    SplitAt(buf, start, p, [x, y] + (tail + imm));
    SplitAt(buf, n, [x, y], tail + imm);
    SplitAt(buf, n + 2, tail, imm);
    assert buf[n..n + 2][0] == x && buf[n..n + 2][1] == y;
  }

  lemma SplitAt(buf: seq<Byte>, at: nat, a: seq<Byte>, b: seq<Byte>)
    requires at + |a + b| <= |buf| && buf[at..at + |a + b|] == a + b
    ensures buf[at..at + |a|] == a && buf[at + |a|..at + |a| + |b|] == b
  {
    var s := buf[at..at + |a + b|];
    assert s[..|a|] == a && s[|a|..] == b;
  }

  /** The lookups find the entry of the opcode, with the prefixes as they are. */
  lemma Found1(s: Setup, start: nat, e: Entry, a: Asm, idx: nat)
    requires WellFormed(s.map_) && GoodAsm(s.dis, a) && StandsAt(s, start, e, a)
    requires |s.map_.tables[0].cells| > a.opcode && s.map_.tables[0].cells[a.opcode] == idx && !IsGroup(idx)
    ensures var p := AllPrefixes(s.dis, a);
            var rex := if a.rex then LastOf(p) else 0;
            var look := Look(Cursor(start + |p| + 1, false, 0), rex, 0x66 in a.prefixes, 0x67 in a.prefixes,
                             LastString(p));
            && start + |p| < |s.buf| && PrefixCount(s.dis, s.buf, start) == |p| <= 13
            && Lookup(s, start, |p|) == Found(idx, look, -1)
  {
    hide AllPrefixes, Assembled, StandsAt, PlaceCode, ModRmByte, ImmediateBytes, AdrOf, Encode, IsRex, LastOf,
      LastString, WellFormed, PrefixCount, Prefixes, IsPrefix;
    NoPrefix(s.dis, a.opcode);
    PrefixesOf(s.dis, a);
    PartsStand(s, start, e, a);
    var p := AllPrefixes(s.dis, a);
    CountPrefixes(s.dis, s.buf, start, p);
    LevelBounds(s.map_);
    StringOfPrefixes(s.buf[start..start + |p|]);
  }

  /** The modes: sizes as meant, and the REX bits of the instruction. */
  lemma ModesMeant(dis: nat, e: Entry, a: Asm, look: Look)
    requires GoodAsm(dis, a) && TwoOperands(e)
    requires look.rex == (if a.rex then LastOf(AllPrefixes(dis, a)) else 0)
    requires look.opr == (0x66 in a.prefixes) && look.adr == (0x67 in a.prefixes)
    ensures var md, rm := ModesOf(dis, e, look), PlaceCode(AdrOf(dis, a), a.rm).rex;
            && md.opr == SizeMeant(dis, e, a) && md.adr == AdrOf(dis, a)
            && RexB(md.rex) == rm % 2 && RexX(md.rex) == rm / 2 && RexR(md.rex) == a.reg / 8
  {
    hide PlaceCode, EffRex, LastOf, AllPrefixes, Legacy, LegacyByte, IsPrefix, ModesOf, RexW, RexR, RexX, RexB;
    PrefixesOf(dis, a);
    PlaceFields(AdrOf(dis, a), a.rm);
    SizesMeant(dis, e, look);
    EffRexBits(look.rex, e.rexMask);
    var rm := PlaceCode(AdrOf(dis, a), a.rm).rex;
    RexBits(1, a.w, a.reg / 8, rm / 2, rm % 2);
    RexBits(0, 0, 0, 0, 0);
  }

  // ----- the operands

  lemma FieldsOf(dis: nat, a: Asm)
    requires GoodAsm(dis, a)
    ensures var modrm, code := ModRmByte(dis, a), PlaceCode(AdrOf(dis, a), a.rm);
            Mod(modrm) == code.mod && RegField(modrm) == a.reg % 8 && Rm(modrm) == code.rm
  {
    hide PlaceCode, Mod, Rm, RegField, Legacy, LegacyByte, IsPrefix;
    var code := PlaceCode(AdrOf(dis, a), a.rm);
    PlaceFields(AdrOf(dis, a), a.rm);
    ModRmFields(code.mod, a.reg % 8, code.rm);
  }

  /** The REX bits of an instruction, as far as its r/m operand needs them. */
  predicate Extends(md: Modes, code: Code) { RexB(md.rex) == code.rex % 2 && RexX(md.rex) == code.rex / 2 }

  /** A register in the r/m field. */
  lemma RegisterPlace(buf: seq<Byte>, md: Modes, c: Cursor, n: nat)
    requires n < 16 && Mod(Read(buf, c).modrm) == 3 && Rm(Read(buf, c).modrm) == n % 8 && RexB(md.rex) == n / 8
    requires md.opr in {16, 32, 64}
    ensures var o := EntryOperand(OP_E, 2);
            && OperandOf(buf, md, o, c) == Operand(OpReg, md.opr, NO_MEM.(base := Gpr(md.opr, n)))
            && AfterOperand(buf, md, o, c) == Read(buf, c)
  {
    hide Mod, Rm, RegField, RexB, RexR, Slice;
    Number(n);
  }

  /** Memory. */
  lemma MemoryPlace(buf: seq<Byte>, md: Modes, c: Cursor, f: Form, sib: bool)
    requires md.adr in {16, 32, 64} && md.opr in {16, 32, 64} && Good(md.adr, f) && Sibs(md.adr, f, sib)
    requires var code, now := Encoded(md.adr, f, sib), Read(buf, c);
             && Mod(now.modrm) == code.mod && Rm(now.modrm) == code.rm && Extends(md, code)
             && now.pos + |code.tail| <= |buf| && buf[now.pos..now.pos + |code.tail|] == code.tail
    ensures var o, n := EntryOperand(OP_E, 2), |Encoded(md.adr, f, sib).tail|;
            && OperandOf(buf, md, o, c) == Operand(OpMem, md.opr, Meant(md.adr, f))
            && AfterOperand(buf, md, o, c) == Read(buf, c).(pos := Read(buf, c).pos + n)
  {
    hide Mod, Rm, RegField, RexB, RexX, Slice, Encoded, Meant, TailLength, Decoded, HasSib;
    var code, now := Encoded(md.adr, f, sib), Read(buf, c);
    CodeFields(md.adr, f, sib);
    RoundTrip(md.adr, f, sib, now.modrm, md.rex);
    TailTaken(md.adr, now.modrm, md.rex, buf, now.pos, code.tail);
    SliceIs(buf, now.pos, now.pos + |code.tail|);
  }

  /** The length told from the bytes is told from the input. */
  lemma TailTaken(adr: nat, modrm: nat, rex: nat, buf: seq<Byte>, at: nat, tail: seq<Byte>)
    requires at + |tail| <= |buf| && buf[at..at + |tail|] == tail
    requires |tail| == TailLength(adr, modrm, rex, if HasSib(adr, modrm) && tail != [] then tail[0] else 0)
    ensures |tail| == TailLength(adr, modrm, rex, ByteAt(buf, at))
  {
    hide HasSib, Offset;
    if HasSib(adr, modrm) {
      assert tail[0] == buf[at];
    } else {
      SibUnused(adr, modrm, rex, 0, ByteAt(buf, at));
    }
  }

  /** The operand in the r/m field. */
  lemma PlaceDecoded(buf: seq<Byte>, dis: nat, e: Entry, a: Asm, md: Modes, c: Cursor)
    requires GoodAsm(dis, a) && Read(buf, c).modrm == ModRmByte(dis, a)
    requires md.adr == AdrOf(dis, a) && md.opr == SizeMeant(dis, e, a) && Extends(md, PlaceCode(md.adr, a.rm))
    requires var tail, now := PlaceCode(md.adr, a.rm).tail, Read(buf, c);
             now.pos + |tail| <= |buf| && buf[now.pos..now.pos + |tail|] == tail
    ensures var o, n := EntryOperand(OP_E, 2), |PlaceCode(md.adr, a.rm).tail|;
            && OperandOf(buf, md, o, c) == PlaceMeant(dis, e, a)
            && AfterOperand(buf, md, o, c) == Read(buf, c).(pos := Read(buf, c).pos + n)
  {
    hide OperandOf, AfterOperand, Encoded, Meant, Mod, Rm, RegField, RexB, RexX, ModRmByte, LegacyByte, IsPrefix;
    FieldsOf(dis, a);
    match a.rm
    case InMemory(f, sib) => MemoryPlace(buf, md, c, f, sib);
    case InRegister(n) => RegisterPlace(buf, md, c, n);
  }

  /** The operand in the reg field. */
  lemma RegisterDecoded(buf: seq<Byte>, dis: nat, e: Entry, a: Asm, md: Modes, c: Cursor)
    requires GoodAsm(dis, a) && Read(buf, c).modrm == ModRmByte(dis, a)
    requires md.opr == SizeMeant(dis, e, a) && RexR(md.rex) == a.reg / 8
    ensures var o := EntryOperand(OP_G, 2);
            OperandOf(buf, md, o, c) == RegisterMeant(dis, e, a) && AfterOperand(buf, md, o, c) == Read(buf, c)
  {
    hide PlaceCode, Mod, Rm, RegField, RexR, RexB, Legacy, LegacyByte, IsPrefix, ModRmByte, Slice;
    FieldsOf(dis, a);
    Number(a.reg);
  }

  /** The immediate, or nothing. */
  lemma ImmediateDecoded(buf: seq<Byte>, dis: nat, e: Entry, a: Asm, md: Modes, c: Cursor)
    requires dis in {16, 32, 64} && TwoOperands(e) && md.opr == SizeMeant(dis, e, a)
    requires var k := ImmediateBytes(dis, e, a);
             a.imm < Pow256(k) && c.pos + k <= |buf| && buf[c.pos..c.pos + k] == Encode(k, a.imm)
    ensures OperandOf(buf, md, e.op3, c) == ImmediateMeant(dis, e, a)
    ensures AfterOperand(buf, md, e.op3, c) == c.(pos := c.pos + ImmediateBytes(dis, e, a))
  {
    hide Encode, Pow256, OperandOf, AfterOperand, RexR, RexW, RexX, RexB;
    if e.op3.code.OP_NONE? {
      FixedOperands(buf, md, e.op3, c);
    } else {
      ImmediateRoundTrip(buf, md, e.op3, c, a.imm);
    }
  }

  /** The three operands, in the order of the entry. */
  lemma OperandsDecoded(buf: seq<Byte>, dis: nat, e: Entry, a: Asm, md: Modes, at: nat)
    requires GoodAsm(dis, a) && TwoOperands(e)
    requires md.adr == AdrOf(dis, a) && md.opr == SizeMeant(dis, e, a) && RexR(md.rex) == a.reg / 8
    requires Extends(md, PlaceCode(md.adr, a.rm))
    requires var tail, k := PlaceCode(md.adr, a.rm).tail, ImmediateBytes(dis, e, a);
             var n := at + 1 + |tail|;
             && n + k <= |buf| && buf[at] == ModRmByte(dis, a) && buf[at + 1..n] == tail
             && a.imm < Pow256(k) && buf[n..n + k] == Encode(k, a.imm)
    ensures var c, tail := Cursor(at, false, 0), PlaceCode(md.adr, a.rm).tail;
            && OperandsOf(buf, md, e, c) == OperandsMeant(dis, e, a)
            && AfterOperands(buf, md, e, c) ==
               (Cursor(at + 1 + |tail| + ImmediateBytes(dis, e, a), true, ModRmByte(dis, a)), false)
  {
    hide OperandOf, AfterOperand, PlaceCode, Extends, RexR, Encode, Pow256, ModRmByte, ImmediateBytes, PlaceMeant,
      RegisterMeant, ImmediateMeant, Legacy, LegacyByte, IsPrefix;
    var c, n := Cursor(at, false, 0), |PlaceCode(md.adr, a.rm).tail|;
    var c1 := Cursor(at + 1, true, ModRmByte(dis, a));
    var c2 := c1.(pos := at + 1 + n);
    assert Read(buf, c) == c1 && Read(buf, c1) == c1 && Read(buf, c2) == c2;
    if e.op1.code.OP_E? {
      PlaceDecoded(buf, dis, e, a, md, c);
      RegisterDecoded(buf, dis, e, a, md, c2);
    } else {
      RegisterDecoded(buf, dis, e, a, md, c);
      PlaceDecoded(buf, dis, e, a, md, c1);
    }
    ImmediateDecoded(buf, dis, e, a, md, c2);
  }

  /** Assembled, then decoded: wherever in the input the bytes of an instruction stand, in any mode, with any
      prefixes, every addressing form in every encoding or a register, and any immediate, the decoder
      takes exactly these bytes, finds the entry of the opcode, and gives the operands that are
      meant, in the order of the entry. */
  lemma AssembledDecodes(s: Setup, start: nat, e: Entry, a: Asm)
    requires WellFormed(s.map_) && GoodAsm(s.dis, a) && TwoOperands(e) && StandsAt(s, start, e, a)
    requires a.imm < Pow256(ImmediateBytes(s.dis, e, a))
    requires var cells := s.map_.tables[0].cells;
             && a.opcode < |cells| && !IsGroup(cells[a.opcode])
             && cells[a.opcode] < |s.map_.entries| && s.map_.entries[cells[a.opcode]] == e
    ensures var o, x := Decoding(s, start), InsnAt(s, start).shape;
            && o == Outcome(|Assembled(s.dis, e, a)|, false, s.map_.tables[0].cells[a.opcode])
            && x.mnemonic == e.mnemonic && x.ops == OperandsMeant(s.dis, e, a)
  {
    hide WellFormed, GoodAsm, StandsAt, Assembled, PlaceCode, AllPrefixes, ModRmByte, ImmediateBytes, Pow256, Encode,
      PrefixCount, Lookup, ModesOf, OperandsOf, AfterOperands, OperandsMeant, SizeMeant, AdrOf, RexW, RexR, RexX, RexB,
      LastString, LastSegment, LastOf;
    LevelBounds(s.map_);
    var idx, p := s.map_.tables[0].cells[a.opcode], AllPrefixes(s.dis, a);
    Found1(s, start, e, a, idx);
    PartsStand(s, start, e, a);
    var look := Lookup(s, start, |p|).look;
    ModesMeant(s.dis, e, a, look);
    OperandsDecoded(s.buf, s.dis, e, a, ModesOf(s.dis, e, look), start + |p| + 1);
  }

  /** And ud_disassemble says so, the input behind the instruction being long enough. */
  method DisassembleAssembled(m: Map, buf: seq<Byte>, hook: bool, dis: nat, vendor: Vendor, e: Entry, a: Asm)
    returns (len: nat, x: Shape)
    requires WellFormed(m) && GoodAsm(dis, a) && TwoOperands(e) && |buf| > Decoder.MOST
    requires StandsAt(Setup(m, buf, dis, vendor), 0, e, a) && a.imm < Pow256(ImmediateBytes(dis, e, a))
    requires var cells := m.tables[0].cells;
             && a.opcode < |cells| && !IsGroup(cells[a.opcode])
             && cells[a.opcode] < |m.entries| && m.entries[cells[a.opcode]] == e
    ensures len == |Assembled(dis, e, a)| && x.mnemonic == e.mnemonic && x.ops == OperandsMeant(dis, e, a)
  {
    hide WellFormed, StandsAt, Assembled, OperandsMeant, Pow256, Decoding, InsnAt, TwoOperands, LegacyByte, IsPrefix;
    var u := new Decoder.Ud(m, buf, hook, dis, vendor, 0);
    AssembledDecodes(u.Here(), 0, e, a);
    len := u.Disassemble();
    x := u.Formed();
  }
}
