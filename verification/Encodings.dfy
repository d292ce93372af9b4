/** From the encoding of an instruction to what the decoder makes of it: registers, the entries that
    prefixes, mode and ModRM byte lead to, sizes, and whole instructions. */
module Encodings {
  import opened Bytes
  import opened ModRm
  import opened Tables
  import opened Walk

  // ----- registers

  /** A REX prefix from its bits. */
  function Rex(w: nat, r: nat, x: nat, b: nat): nat { 64 + 8 * w + 4 * r + 2 * x + b }

  /** A register number has its high bit in a REX prefix, if there is one, and if the entry allows it. */
  predicate HighBit(n: nat, rex: nat, bit: nat, mask: nat) {
    n < 16 && bit < 2 && (rex == 0 || rex / 64 == 1) && n / 8 == And(bit, mask)
  }

  /** Register n is in the field of the operand: its low bits in r/m with mod 3, in reg, or in the
      opcode, its high bit in the REX bit that belongs to the field. */
  predicate Names(o: OpCode, n: nat, modrm: nat, rex: nat, mask: nat) {
    && (ByModrm(o) || ByReg(o) || o.OP_R?)
    && (ByModrm(o) ==> Mod(modrm) == 3 && Rm(modrm) == n % 8 && HighBit(n, rex, RexB(rex), RexB(mask)))
    && (ByReg(o) ==> RegField(modrm) == n % 8 && HighBit(n, rex, RexR(rex), RexR(mask)))
    && (o.OP_R? ==> o.n == n % 8 && HighBit(n, rex, RexB(rex), RexB(mask)))
  }

  /** In 64-bit mode such an operand is register n: of the general registers, with its size, where the
      byte registers 4 to 7 are spl to dil behind a REX prefix and ah to bh without; or of the class the
      operand code is for. */
  lemma RegisterRoundTrip(e: Entry, look: Look, o: EntryOperand, n: nat, modrm: nat)
    requires Names(o.code, n, modrm, look.rex, e.rexMask)
    ensures var md := ModesOf(64, e, look);
            var r, size := RegisterOf(md, o, modrm), SizeOf(md, o, modrm);
            match o.code
            case OP_N => r == Other(1, n % 8)
            case OP_Q => r == Other(1, n % 8)
            case OP_P => r == Other(1, n % 8)
            case OP_U => r == Other(2, n)
            case OP_W => r == Other(2, n)
            case OP_MU => r == Other(2, n)
            case OP_V => r == Other(2, n)
            case OP_C => r == Other(3, n)
            case OP_D => r == Other(4, n)
            case OP_S => r == Other(5, n % 8)
            case _ =>
              && (size == 0 ==> r == NoReg) && (size in {16, 32, 64} ==> r == Gpr(size, n))
              && (size == 8 ==> r == if look.rex == 0 && n >= 4 then Other(0, n) else Gpr(8, n))
  {
    hide RexW, RexR, RexX, RexB, Mod, Rm, RegField, EffRex, SizeOf, EffOprMode, EffAdrMode;
    EffRexBits(look.rex, e.rexMask);
    Number(n);
    Present(look.rex, e.rexMask);
    if o.code.OP_R? {
      SizeOfPlain(ModesOf(64, e, look), o, modrm);
    }
  }

  /** A REX prefix stays one, and none stays none. */
  lemma Present(rex: nat, mask: nat)
    requires rex == 0 || rex / 64 == 1
    ensures EffRex(rex, mask) == 0 <==> rex == 0
  {
    EffRexBits(rex, mask);
  }

  lemma SizeOfPlain(md: Modes, o: EntryOperand, modrm: nat)
    requires !o.code.OP_MR? && !o.code.OP_MU?
    ensures SizeOf(md, o, modrm) == Resolve(md, o.size)
  {
  }

  // ----- which entry

  function First(cells: seq<nat>): nat { if cells == [] then 0 else cells[0] }

  /** From a table that is no opcode, 3dnow or prefix table, the walk goes on at: the slot of the reg
      field, of r/m, or, with mod 3, slot 1; of the last 64 ModRM bytes in order; of the mode; of the
      operand or address size, 16, 32 and 64 in order; of the vendor, or of the first that is not empty. For
      the first four the ModRM byte is taken, if it has not been. */
  lemma SlotReached(s: Setup, ptr: nat, look: Look, mod: nat, reg: nat, rm: nat)
    requires WellFormed(s.map_) && IsGroup(ptr) && InMap(s.map_, ptr) && Strings(look) && s.dis in {16, 32, 64}
    requires mod < 4 && reg < 8 && rm < 8 && Read(s.buf, look.cur).modrm == 64 * mod + 8 * reg + rm
    requires var k := s.map_.tables[Target(ptr)].kind;
             k != OpcTable && k != Opc3dnow && k != OpcSse && (k == OpcX87 ==> mod == 3)
    ensures var t := s.map_.tables[Target(ptr)];
            var slot :=
              match t.kind
              case OpcReg => reg
              case OpcRm => rm
              case OpcMod => if mod == 3 then 1 else 0
              case OpcX87 => 8 * reg + rm
              case OpcMode => if s.dis == 64 then 1 else 0
              case OpcOsize =>
                if s.dis == 64 && RexW(look.rex) == 1 then 2
                else if look.opr == (s.dis == 16) then 1 else 0
              case OpcAsize =>
                if s.dis == 64 then if look.adr then 1 else 2
                else if look.adr == (s.dis == 16) then 1 else 0
              case OpcVendor => if s.vendor == Amd || (s.vendor == Any && First(t.cells) != 0) then 0 else 1
              case _ => 0;
            var look' :=
              if t.kind in {OpcReg, OpcRm, OpcMod, OpcX87} then look.(cur := Read(s.buf, look.cur)) else look;
            && slot < |t.cells| && InMap(s.map_, t.cells[slot])
            && Ext(s, ptr, look) == Ext(s, t.cells[slot], look')
  {
    hide WellFormed, Mod, RegField, Rm;
    ModRmFields(mod, reg, rm);
    assert RexW(look.rex) < 2;
    var t := s.map_.tables[Target(ptr)];
    NextCell(s.map_, ptr, 0);
    var look' := if UsesModrm(t.kind) then look.(cur := Read(s.buf, look.cur)) else look;
    NextCell(s.map_, ptr, SlotOf(s, t, look'));
  }

  /** From a prefix table the walk goes on at slot 1 with F2, 2 with F3, otherwise 3 with 66, otherwise 0. The
      prefix is then used up, 66 not if it was there beside F2 or F3. From an empty slot it goes on at
      slot 0, with all prefixes. */
  lemma PrefixReached(s: Setup, ptr: nat, look: Look)
    requires WellFormed(s.map_) && IsGroup(ptr) && InMap(s.map_, ptr) && Strings(look)
    requires s.map_.tables[Target(ptr)].kind == OpcSse
    ensures var t := s.map_.tables[Target(ptr)];
            var slot, rest := if look.str == 0xF2 then 1 else if look.str == 0xF3 then 2 else if look.opr then 3 else 0,
                              if look.str != 0 then look.(str := 0) else look.(opr := false);
            && |t.cells| == 4
            && if t.cells[slot] == 0 || slot == 0
               then InMap(s.map_, t.cells[0]) && Ext(s, ptr, look) == Ext(s, t.cells[0], look)
               else InMap(s.map_, t.cells[slot]) && Strings(rest) && Ext(s, ptr, look) == Ext(s, t.cells[slot], rest)
  {
    hide WellFormed;
    NextCell(s.map_, ptr, 0);
    var t := s.map_.tables[Target(ptr)];
    NextCell(s.map_, ptr, SseSlot(t.cells, look));
  }

  // ----- prefixes

  /** The segment prefixes: 26, 2E, 36 and 3E for es, cs, ss and ds, 64 and 65 for fs and gs. */
  lemma SegmentCodes(n: nat)
    requires n < 6
    ensures SegmentOf(if n < 4 then 0x26 + 8 * n else 0x60 + n) == n + 1
  {
  }

  /** The last segment prefix counts, whatever stands before it, and behind it without another. */
  lemma {:induction false} SegmentCounts(p: seq<Byte>, b: Byte, rest: seq<Byte>)
    requires SegmentOf(b) != 0 && forall i :: 0 <= i < |rest| ==> SegmentOf(rest[i]) == 0
    ensures LastSegment(p + [b] + rest) == SegmentOf(b)
  {
    if rest == [] {
      assert p + [b] + rest == p + [b];
      LastSegmentAppend(p, b);
    } else {
      var init := rest[..|rest| - 1];
      SegmentCounts(p, b, init);
      LastSegmentAppend(p + [b] + init, rest[|rest| - 1]);
      assert p + [b] + rest == p + [b] + init + [rest[|rest| - 1]];
    }
  }

  // ----- sizes

  /** The operand size: in 64-bit mode 64 with REX.W, 16 with 66, otherwise what the entry defaults to;
      in the other modes 66 exchanges 16 and 32. */
  function OperandBits(dis: nat, w: bool, opr: bool, def64: bool): nat {
    if dis == 64 then if w then 64 else if opr then 16 else if def64 then 64 else 32
    else if opr == (dis == 16) then 32 else 16
  }

  /** The address size: 67 halves it, and in 16-bit mode doubles it. */
  function AddressBits(dis: nat, adr: bool): nat {
    if !adr then dis else if dis == 16 then 32 else dis / 2
  }

  lemma SizesMeant(dis: nat, e: Entry, look: Look)
    requires dis in {16, 32, 64}
    ensures var md := ModesOf(dis, e, look);
            && md.dis == dis && md.adr == AddressBits(dis, look.adr)
            && md.opr == OperandBits(dis, RexW(look.rex) == 1 && RexW(e.rexMask) == 1, look.opr, e.def64)
            && (md.rex == if dis == 64 then EffRex(look.rex, e.rexMask) else look.rex)
            && Resolve(md, 2) == md.opr && Resolve(md, 1) == (if md.opr == 16 then 16 else 32)
            && Resolve(md, 17) == (if md.opr == 64 then 64 else 32) && Resolve(md, 7) == (if dis == 64 then 64 else 32)
    ensures forall size :: size == 0 || size >= 18 || size in {8, 16} ==> Resolve(ModesOf(dis, e, look), size) == size
  {
    EffRexBits(look.rex, e.rexMask);
    assert RexW(look.rex) < 2;
    hide RexW, EffRex;
  }

  /** A size that depends on the ModRM byte: the register size in the low byte, the memory size above. */
  lemma SizePair(mod: nat, register: nat, memory: nat)
    requires register < 256 && memory < 256
    ensures MxSize(mod, 256 * memory + register) == if mod == 3 then register else memory
  {
  }

  // ----- operands without a ModRM byte

  /** Bytes of the input that encode v. */
  predicate Stands(buf: seq<Byte>, at: nat, n: nat, v: nat) {
    at + n <= |buf| && v < Pow256(n) && buf[at..at + n] == Encode(n, v)
  }

  /** An immediate, or the displacement of a jump. */
  lemma ImmediateRoundTrip(buf: seq<Byte>, md: Modes, o: EntryOperand, c: Cursor, v: nat)
    requires (o.code.OP_I? || o.code.OP_sI? || o.code.OP_J?) && Resolve(md, o.size) in {8, 16, 32, 64}
    requires Stands(buf, c.pos, Resolve(md, o.size) / 8, v)
    ensures var size := Resolve(md, o.size);
            && OperandOf(buf, md, o, c) ==
               Operand(if o.code.OP_J? then OpJimm else OpImm, size, NO_MEM.(lval := v))
            && AfterOperand(buf, md, o, c) == c.(pos := c.pos + size / 8)
  {
    hide Encode, Decode, Pow256, Slice, Resolve;
    var n := Resolve(md, o.size) / 8;
    DecodeEncode(n, v);
    SliceIs(buf, c.pos, c.pos + n);
  }

  /** An address without a ModRM byte. */
  lemma OffsetRoundTrip(buf: seq<Byte>, md: Modes, o: EntryOperand, c: Cursor, v: nat)
    requires o.code.OP_O? && md.adr in {16, 32, 64} && Stands(buf, c.pos, md.adr / 8, v)
    ensures OperandOf(buf, md, o, c) ==
            Operand(OpMem, Resolve(md, o.size) % 256, Mem(NoReg, NoReg, 0, md.adr, v))
    ensures AfterOperand(buf, md, o, c) == c.(pos := c.pos + md.adr / 8)
  {
    hide Encode, Decode, Pow256, Slice, Resolve;
    var n := md.adr / 8;
    DecodeEncode(n, v);
    SliceIs(buf, c.pos, c.pos + n);
  }

  /** A far pointer: the offset, of 16 or 32 bits, and the segment. */
  lemma PointerRoundTrip(buf: seq<Byte>, md: Modes, o: EntryOperand, c: Cursor, offset: nat, segment: nat)
    requires o.code.OP_A? && md.opr in {16, 32, 64}
    requires var n := if md.opr == 16 then 2 else 4;
             Stands(buf, c.pos, n, offset) && Stands(buf, c.pos + n, 2, segment)
    ensures var n := if md.opr == 16 then 2 else 4;
            && OperandOf(buf, md, o, c) ==
               Operand(OpPtr, 8 * n + 16, NO_MEM.(lval := offset + 0x1_0000_0000 * segment))
            && AfterOperand(buf, md, o, c) == c.(pos := c.pos + n + 2)
  {
    hide Encode, Decode, Pow256, Slice;
    var n := if md.opr == 16 then 2 else 4;
    DecodeEncode(n, offset);
    DecodeEncode(2, segment);
    SliceIs(buf, c.pos, c.pos + n + 2);
    var b := buf[c.pos..c.pos + n + 2];
    assert b[..n] == buf[c.pos..c.pos + n] && b[n..] == buf[c.pos + n..c.pos + n + 2];
  }

  /** Operands without bytes: the register in the opcode of the accumulator forms, a segment register, one of the
      floating-point stack, and the constants 1 and 3. */
  lemma FixedOperands(buf: seq<Byte>, md: Modes, o: EntryOperand, c: Cursor)
    requires o.code.OP_ACD? ==> o.code.n < 3 && Resolve(md, o.size) in {8, 16, 32, 64}
    ensures Implied(o.code) ==> AfterOperand(buf, md, o, c) == c
    ensures var x := OperandOf(buf, md, o, c);
            match o.code
            case OP_ACD(n) => var size := Resolve(md, o.size); x == Operand(OpReg, size, NO_MEM.(base := Gpr(size, n)))
            case OP_Seg(n) => x == Operand(OpReg, 16, NO_MEM.(base := Other(5, n)))
            case OP_ST(n) => x == Operand(OpReg, 80, NO_MEM.(base := Other(6, n)))
            case OP_I1 => x == Operand(OpConst, 0, NO_MEM.(lval := 1))
            case OP_I3 => x == Operand(OpConst, 0, NO_MEM.(lval := 3))
            case OP_NONE => x == NO_OPERAND
            case _ => true
  {
    hide Resolve, Slice, RmTail, Decoded;
    NothingDecoded();
    SliceIs(buf, 0, 0);
  }
}
