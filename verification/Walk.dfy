/** What one instruction is, as a function of the bytes: prefixes, the walk over the lookup
    tables, the operands with their sizes and registers, and the number of bytes all this takes. */
module Walk {
  import opened Bytes
  import opened ModRm
  import opened Tables

  datatype Vendor = Amd | Intel | Any

  datatype OpKind = None | OpReg | OpMem | OpPtr | OpImm | OpJimm | OpConst

  /** An operand as struct ud has it. */
  datatype Operand = Operand(kind: OpKind, size: nat, mem: Mem)

  const NO_MEM := Mem(NoReg, NoReg, 0, 0, 0)

  const NO_OPERAND := Operand(None, 0, NO_MEM)

  // register classes
  datatype Class = GPR | MMX | CR | DB | SEG | XMM

  // MAX_INSN_LENGTH
  const MAX_INSN_LENGTH: nat := 15

  function EffOprMode(dis: nat, rexW: nat, opr: bool): nat {
    if dis == 64 then if rexW != 0 then 64 else if opr then 16 else 32
    else if dis == 32 then if opr then 16 else 32
    else if opr then 32 else 16
  }

  function EffAdrMode(dis: nat, adr: bool): nat {
    if dis == 64 then if adr then 32 else 64
    else if dis == 32 then if adr then 16 else 32
    else if adr then 32 else 16
  }

  // ----- prefixes

  predicate IsRex(dis: nat, b: Byte) { dis == 64 && b / 16 == 4 }

  /** What decode_prefixes takes for a prefix. */
  predicate IsPrefix(dis: nat, b: Byte) {
    b in {0x2E, 0x36, 0x3E, 0x26, 0x64, 0x65, 0x67, 0xF0, 0x66, 0xF2, 0xF3} || IsRex(dis, b)
  }

  predicate Prefixes(dis: nat, p: seq<Byte>) {
    forall i :: 0 <= i < |p| ==> IsPrefix(dis, p[i])
  }

  function LastOf(p: seq<Byte>): Byte { if p == [] then 0 else p[|p| - 1] }

  lemma NoLast(dis: nat)
    ensures LastOf([]) == 0 && Prefixes(dis, [])
  {
  }

  lemma OneMorePrefix(dis: nat, p: seq<Byte>, b: Byte)
    requires Prefixes(dis, p) && IsPrefix(dis, b)
    ensures Prefixes(dis, p + [b]) && LastOf(p + [b]) == b
  {
    hide IsPrefix;
  }

  lemma SliceGrows(buf: seq<Byte>, start: nat, end: nat, p: seq<Byte>)
    requires start <= end < |buf| && p == buf[start..end]
    ensures p + [buf[end]] == buf[start..end + 1]
  {
  }

  /** The later of the string prefixes. */
  function LastString(p: seq<Byte>): nat {
    if p == [] then 0
    else if p[|p| - 1] == 0xF2 || p[|p| - 1] == 0xF3 then p[|p| - 1]
    else LastString(p[..|p| - 1])
  }

  /** The segment a prefix stands for, es to gs counted from 1. */
  function SegmentOf(b: Byte): nat {
    match b
    case 0x26 => 1
    case 0x2E => 2
    case 0x36 => 3
    case 0x3E => 4
    case 0x64 => 5
    case 0x65 => 6
    case _ => 0
  }

  /** The last segment prefix counts. */
  function LastSegment(p: seq<Byte>): nat {
    if p == [] then 0
    else if SegmentOf(p[|p| - 1]) != 0 then SegmentOf(p[|p| - 1])
    else LastSegment(p[..|p| - 1])
  }

  lemma LastSegmentAppend(p: seq<Byte>, b: Byte)
    ensures LastSegment(p + [b]) == if SegmentOf(b) != 0 then SegmentOf(b) else LastSegment(p)
  {
    assert (p + [b])[..|p|] == p;
  }

  lemma LastStringAppend(p: seq<Byte>, b: Byte)
    ensures LastString(p + [b]) == if b == 0xF2 || b == 0xF3 then b else LastString(p)
  {
    assert (p + [b])[..|p|] == p;
  }

  /** How many prefix bytes there are from position `at` on. */
  function PrefixCount(dis: nat, buf: seq<Byte>, at: nat): (n: nat)
    ensures at <= |buf| ==> at + n <= |buf|
    decreases |buf| - at
  {
    if at < |buf| && IsPrefix(dis, buf[at]) then 1 + PrefixCount(dis, buf, at + 1) else 0
  }

  /** A run of prefixes is all of them if something else follows. */
  lemma {:induction false} CountPrefixes(dis: nat, buf: seq<Byte>, at: nat, p: seq<Byte>)
    requires at + |p| <= |buf| && p == buf[at..at + |p|] && Prefixes(dis, p)
    ensures PrefixCount(dis, buf, at) >= |p|
    ensures at + |p| < |buf| && !IsPrefix(dis, buf[at + |p|]) ==> PrefixCount(dis, buf, at) == |p|
    decreases |p|
  {
    hide IsPrefix;
    if p != [] {
      assert p[0] == buf[at];
      assert p[1..] == buf[at + 1..at + 1 + |p[1..]|];
      CountPrefixes(dis, buf, at + 1, p[1..]);
    }
  }

  // ----- the position in the input, and the ModRM byte

  /** Where the next byte is, and the ModRM byte if it has been read. */
  datatype Cursor = Cursor(pos: nat, have: bool, modrm: Byte)

  function ByteAt(buf: seq<Byte>, at: nat): Byte { if at < |buf| then buf[at] else 0 }

  /** The ModRM byte is read once. */
  function Read(buf: seq<Byte>, c: Cursor): Cursor {
    if c.have then c else Cursor(c.pos + 1, true, ByteAt(buf, c.pos))
  }

  // ----- the walk over the lookup tables

  datatype Setup = Setup(map_: Map, buf: seq<Byte>, dis: nat, vendor: Vendor)

  /** What the lookups depend on: the prefixes not consumed yet, and the ModRM byte. */
  datatype Look = Look(cur: Cursor, rex: nat, opr: bool, adr: bool, str: nat)

  /** Where the walk ends: an entry, and the number of the 3dnow table if it came through one. */
  datatype Found = Found(entry: nat, look: Look, last: int)

  predicate UsesModrm(k: Kind) { k == OpcMod || k == OpcX87 || k == OpcRm || k == OpcReg }

  /** The slot to look at in a table that is neither an opcode, a 3dnow, nor a prefix table. */
  function SlotOf(s: Setup, t: Table, look: Look): (idx: nat)
    requires |t.cells| == Size(t.kind)
    ensures t.kind != OpcTable && t.kind != Opc3dnow && t.kind != OpcSse ==> idx < Size(t.kind)
  {
    match t.kind
    case OpcMod => (Mod(look.cur.modrm) + 1) / 4
    case OpcMode => if s.dis != 64 then 0 else 1
    case OpcOsize => EffOprMode(s.dis, RexW(look.rex), look.opr) / 32
    case OpcAsize => EffAdrMode(s.dis, look.adr) / 32
    case OpcX87 => if look.cur.modrm >= 0xC0 then look.cur.modrm - 0xC0 else 0
    case OpcVendor =>
      if s.vendor == Any then if t.cells[0] != 0 then 0 else 1 else if s.vendor == Amd then 0 else 1
    case OpcRm => Rm(look.cur.modrm)
    case OpcReg => RegField(look.cur.modrm)
    case _ => 0
  }

  predicate Strings(look: Look) { look.str in {0, 0xF2, 0xF3} }

  /** The slot of a prefix table: the string prefixes come before 66, and an empty slot sends the
      lookup to slot 0. */
  function SseSlot(cells: seq<nat>, look: Look): (idx: nat)
    requires |cells| == 4 && Strings(look)
    ensures idx < 4
  {
    var pfx := if look.str != 0 then look.str else if look.opr then 0x66 else 0;
    var idx := (pfx % 16 + 1) / 2;
    if cells[idx] == 0 then 0 else idx
  }

  /** The prefix that chose a slot is consumed. */
  function Consumed(look: Look, idx: nat): Look {
    if idx == 0 then look else look.(str := 0, opr := look.opr && look.str != 0)
  }

  /** A cell that leads somewhere. */
  predicate InMap(m: Map, c: nat) { if IsGroup(c) then Target(c) < |m.tables| else c < |m.entries| }

  function Rank(m: Map, c: nat): nat {
    if IsGroup(c) && Target(c) < |m.tables| then |m.tables| - Target(c) else 0
  }

  /** What well-formedness says about one cell. */
  lemma CellBounds(m: Map, i: nat, j: nat)
    requires WellFormed(m) && i < |m.tables| && j < Size(m.tables[i].kind)
    ensures |m.level| == |m.tables| && |m.tables[i].cells| == Size(m.tables[i].kind) && CellOk(m, i, j)
  {
  }

  lemma LevelBounds(m: Map)
    requires WellFormed(m)
    ensures |m.level| == |m.tables| > 0 && m.tables[0].kind == OpcTable && |m.entries| > 0
    ensures forall i :: 0 <= i < |m.tables| ==> m.level[i] <= 2
  {
  }

  /** The next cell, which is in the map, and lower if it is a table. */
  lemma NextCell(m: Map, ptr: nat, j: nat)
    requires WellFormed(m) && IsGroup(ptr) && InMap(m, ptr) && j < Size(m.tables[Target(ptr)].kind)
    ensures |m.tables[Target(ptr)].cells| == Size(m.tables[Target(ptr)].kind)
    ensures var c := m.tables[Target(ptr)].cells[j];
            InMap(m, c) && Rank(m, c) < Rank(m, ptr) && (m.tables[Target(ptr)].kind == Opc3dnow ==> !IsGroup(c))
  {
    CellBounds(m, Target(ptr), j);
    hide WellFormed;
  }

  /** decode_ext: the walk from a cell on. */
  function Ext(s: Setup, ptr: nat, look: Look): (f: Found)
    requires WellFormed(s.map_) && InMap(s.map_, ptr) && Strings(look)
    ensures f.entry < |s.map_.entries| && f.last < |s.map_.tables|
    decreases Rank(s.map_, ptr)
  {
    if !IsGroup(ptr) then Found(ptr, look, -1)
    else
      var t := s.map_.tables[Target(ptr)];
      NextCell(s.map_, ptr, 0);
      match t.kind
      case OpcTable => LevelBounds(s.map_); Found(0, look, -1)
      case Opc3dnow => NextCell(s.map_, ptr, 12); Found(t.cells[12], look, Target(ptr))
      case OpcSse =>
        var idx := SseSlot(t.cells, look);
        NextCell(s.map_, ptr, idx);
        Ext(s, t.cells[idx], Consumed(look, idx))
      case _ =>
        var look' := if UsesModrm(t.kind) then look.(cur := Read(s.buf, look.cur)) else look;
        var idx := SlotOf(s, t, look');
        NextCell(s.map_, ptr, idx);
        Ext(s, t.cells[idx], look')
  }

  /** decode_opcode: opcode bytes as long as they lead to opcode tables, then the walk. */
  function Opc(s: Setup, le: nat, b: Byte, look: Look): (f: Found)
    requires WellFormed(s.map_) && le < |s.map_.tables| && s.map_.tables[le].kind == OpcTable && Strings(look)
    ensures f.entry < |s.map_.entries| && f.last < |s.map_.tables|
    decreases |s.map_.tables| - le
  {
    CellBounds(s.map_, le, b);
    var c := s.map_.tables[le].cells[b];
    if IsGroup(c) && s.map_.tables[Target(c)].kind == OpcTable then
      var at := look.cur.pos;
      Opc(s, Target(c), ByteAt(s.buf, at), look.(cur := look.cur.(pos := at + 1)))
    else Ext(s, c, look)
  }

  // ----- operands

  /** What operands depend on: the mode, the operand and address size, the effective REX bits. */
  datatype Modes = Modes(dis: nat, opr: nat, adr: nat, rex: nat)

  /** The effective REX prefix: the bits the table entry allows. */
  function EffRex(rex: nat, mask: nat): nat {
    64 * (rex / 64 % 2) + 8 * And(RexW(rex), RexW(mask)) + 4 * And(RexR(rex), RexR(mask))
    + 2 * And(RexX(rex), RexX(mask)) + And(RexB(rex), RexB(mask))
  }

  function And(a: nat, b: nat): nat { if a == 1 && b == 1 then 1 else 0 }

  /** resolve_mode: the sizes for the operands of entry e. */
  function ModesOf(dis: nat, e: Entry, look: Look): Modes {
    var rex := if dis == 64 then EffRex(look.rex, e.rexMask) else look.rex;
    var opr := if dis == 64 && RexW(rex) == 0 && !look.opr && e.def64 then 64 else EffOprMode(dis, RexW(rex), look.opr);
    Modes(dis, opr, EffAdrMode(dis, look.adr), rex)
  }

  function Resolve(md: Modes, size: nat): nat {
    match size
    case 2 => md.opr
    case 1 => if md.opr == 16 then 16 else 32
    case 17 => if md.opr == 16 then 32 else md.opr
    case 7 => if md.dis == 64 then 64 else 32
    case _ => size
  }

  /** Mx_mem_size and Mx_reg_size */
  function MxSize(mod: nat, size: nat): nat { if mod == 3 then size % 256 else size / 256 % 256 }

  /** Operands without bytes. */
  predicate Implied(c: OpCode) {
    c.OP_R? || c.OP_ACD? || c.OP_Seg? || c.OP_I1? || c.OP_I3? || c.OP_ST? || c.OP_NONE?
  }

  /** Operands in the r/m field. */
  predicate ByModrm(c: OpCode) {
    c.OP_MR? || c.OP_F? || c.OP_M? || c.OP_E? || c.OP_N? || c.OP_Q? || c.OP_U? || c.OP_W? || c.OP_MU? || c.OP_RM?
  }

  /** Operands in the reg field. */
  predicate ByReg(c: OpCode) { c.OP_G? || c.OP_P? || c.OP_V? || c.OP_S? || c.OP_C? || c.OP_D? }

  predicate NeedsModrm(c: OpCode) { ByModrm(c) || ByReg(c) }

  /** The kind of operand that an operand code stands for. */
  function KindOf(c: OpCode, modrm: nat): OpKind {
    if c.OP_M? || c.OP_F? then OpMem
    else if c.OP_N? || c.OP_U? || c.OP_RM? then OpReg
    else if ByModrm(c) then if Mod(modrm) == 3 then OpReg else OpMem
    else
      match c
      case OP_A => OpPtr
      case OP_sI => OpImm
      case OP_I => OpImm
      case OP_J => OpJimm
      case OP_O => OpMem
      case OP_I1 => OpConst
      case OP_I3 => OpConst
      case OP_NONE => None
      case _ => OpReg
  }

  /** The register class an operand code stands for. */
  function ClassOf(c: OpCode): Class {
    if c.OP_N? || c.OP_Q? || c.OP_P? then MMX
    else if c.OP_U? || c.OP_W? || c.OP_MU? || c.OP_V? then XMM
    else if c.OP_S? then SEG else if c.OP_C? then CR else if c.OP_D? then DB
    else GPR
  }

  /** The register of a class; without REX, byte registers 4 to 7 are ah to bh. */
  function RegOf(md: Modes, cls: Class, num: nat, size: nat): Reg {
    match cls
    case GPR =>
      if size == 0 then NoReg
      else if size == 8 && num >= 4 && !(md.dis == 64 && md.rex != 0) then Other(0, num)
      else Gpr(size, num)
    case MMX => Other(1, num % 8)
    case XMM => Other(2, num)
    case CR => Other(3, num)
    case DB => Other(4, num)
    case SEG => Other(5, num % 8)
  }

  /** The size an operand is given, before it is cut to a byte. */
  function SizeOf(md: Modes, o: EntryOperand, modrm: nat): nat {
    if o.code.OP_MR? || o.code.OP_MU? then Resolve(md, MxSize(Mod(modrm), o.size)) else Resolve(md, o.size)
  }

  /** The register of an operand that is one: class by the operand code, number by the field it
      is in and the REX bit that extends that field. */
  function RegisterOf(md: Modes, o: EntryOperand, modrm: nat): Reg {
    match o.code
    case OP_Seg(n) => Other(5, n)
    case OP_ST(n) => Other(6, n)
    case OP_R(n) => RegOf(md, GPR, 8 * RexB(md.rex) + n, Resolve(md, o.size))
    case OP_ACD(n) => RegOf(md, GPR, n, Resolve(md, o.size))
    case _ =>
      var num := if ByReg(o.code) then 8 * RexR(md.rex) + RegField(modrm) else 8 * RexB(md.rex) + Rm(modrm);
      RegOf(md, ClassOf(o.code), num, SizeOf(md, o, modrm))
  }

  /** What makes an operand an error: a wrong ModRM kind, a segment register that does not exist,
      or one that 64-bit mode does not name. */
  predicate BadOperand(md: Modes, c: OpCode, modrm: nat) {
    match c
    case OP_F => Mod(modrm) == 3
    case OP_M => Mod(modrm) == 3
    case OP_N => Mod(modrm) != 3
    case OP_U => Mod(modrm) != 3
    case OP_RM => Mod(modrm) != 3
    case OP_S => RegField(modrm) > 5
    case OP_Seg(n) => md.dis == 64 && n != 4 && n != 5
    case _ => false
  }

  // ----- how many bytes

  /** SIB byte and displacement behind a ModRM byte. */
  function RmTail(md: Modes, modrm: nat, sib: nat): nat {
    if Mod(modrm) == 3 then 0 else TailLength(md.adr, modrm, md.rex, sib)
  }

  /** A size in bits that there are values of, in bytes. */
  function ByteWidth(size: nat): nat { if size in {8, 16, 32, 64} then size / 8 else 0 }

  /** The bytes of an operand besides the ModRM byte. */
  function OperandBytes(md: Modes, o: EntryOperand, modrm: nat, sib: nat): nat {
    match o.code
    case OP_A => if md.opr == 16 then 4 else 6
    case OP_I => ByteWidth(Resolve(md, o.size) % 256)
    case OP_sI => ByteWidth(Resolve(md, o.size) % 256)
    case OP_J => ByteWidth(Resolve(md, o.size) % 256)
    case OP_O => ByteWidth(md.adr)
    case _ => if ByModrm(o.code) then RmTail(md, modrm, sib) else 0
  }

  /** n bytes of the input, zeros where it has ended. */
  function Slice(buf: seq<Byte>, at: nat, n: nat): (s: seq<Byte>)
    ensures |s| == n
  {
    if at + n <= |buf| then buf[at..at + n] else seq(n, _ => 0)
  }

  lemma SliceIs(buf: seq<Byte>, at: nat, to: nat)
    requires at <= to <= |buf|
    ensures Slice(buf, at, to - at) == buf[at..to]
  {
  }

  /** The size an operand ends up with. */
  function SizeGiven(md: Modes, o: EntryOperand, modrm: nat): nat {
    match o.code
    case OP_A => if md.opr == 16 then 32 else 48
    case OP_Seg(_) => 16
    case OP_ST(_) => 80
    case OP_NONE => 0
    case OP_I1 => 0
    case OP_I3 => 0
    case _ => SizeOf(md, o, modrm) % 256
  }

  /** The value of an operand that is no register and has no ModRM byte, from its bytes. */
  function ValueOf(c: OpCode, bytes: seq<Byte>): nat {
    match c
    case OP_I1 => 1
    case OP_I3 => 3
    case OP_A =>
      if |bytes| < 2 then 0
      else Decode(bytes[..|bytes| - 2]) + 0x1_0000_0000 * Decode(bytes[|bytes| - 2..])
    case _ => Decode(bytes)
  }

  /** An operand in the r/m field, with registers of class cls: one of them, or memory. */
  function RmOperand(buf: seq<Byte>, md: Modes, cls: Class, size: nat, c: Cursor): Operand {
    var c := Read(buf, c);
    if Mod(c.modrm) == 3
    then Operand(OpReg, size % 256, NO_MEM.(base := RegOf(md, cls, 8 * RexB(md.rex) + Rm(c.modrm), size)))
    else Operand(OpMem, size % 256,
           Decoded(md.adr, c.modrm, md.rex, Slice(buf, c.pos, RmTail(md, c.modrm, ByteAt(buf, c.pos)))))
  }

  /** An operand, decoded at c. */
  function OperandOf(buf: seq<Byte>, md: Modes, o: EntryOperand, c: Cursor): Operand {
    var c := if NeedsModrm(o.code) then Read(buf, c) else c;
    var bytes := Slice(buf, c.pos, OperandBytes(md, o, c.modrm, ByteAt(buf, c.pos)));
    var kind := KindOf(o.code, c.modrm);
    Operand(kind, SizeGiven(md, o, c.modrm),
      if kind == OpReg then NO_MEM.(base := RegisterOf(md, o, c.modrm))
      else if ByModrm(o.code) then Decoded(md.adr, c.modrm, md.rex, bytes)
      else NO_MEM.(offset := if o.code.OP_O? then 8 * ByteWidth(md.adr) else 0, lval := ValueOf(o.code, bytes)))
  }

  /** The position behind an operand in the r/m field. */
  function AfterRm(buf: seq<Byte>, md: Modes, c: Cursor): Cursor {
    var c := Read(buf, c);
    c.(pos := c.pos + RmTail(md, c.modrm, ByteAt(buf, c.pos)))
  }

  /** The position behind an operand. */
  function AfterOperand(buf: seq<Byte>, md: Modes, o: EntryOperand, c: Cursor): Cursor {
    var c := if NeedsModrm(o.code) then Read(buf, c) else c;
    c.(pos := c.pos + OperandBytes(md, o, c.modrm, ByteAt(buf, c.pos)))
  }

  /** The position behind the three operands of an entry, and whether one of them is an error. */
  function AfterOperands(buf: seq<Byte>, md: Modes, e: Entry, c: Cursor): (Cursor, bool) {
    var c1 := AfterOperand(buf, md, e.op1, c);
    var c2 := AfterOperand(buf, md, e.op2, c1);
    var c3 := AfterOperand(buf, md, e.op3, c2);
    (c3, BadOperand(md, e.op1.code, c1.modrm) || BadOperand(md, e.op2.code, c2.modrm)
         || BadOperand(md, e.op3.code, c3.modrm))
  }

  /** The three operands. */
  function OperandsOf(buf: seq<Byte>, md: Modes, e: Entry, c: Cursor): (ops: seq<Operand>)
    ensures |ops| == 3
  {
    var c1 := AfterOperand(buf, md, e.op1, c);
    var c2 := AfterOperand(buf, md, e.op2, c1);
    [OperandOf(buf, md, e.op1, c), OperandOf(buf, md, e.op2, c1), OperandOf(buf, md, e.op3, c2)]
  }

  /** The position behind an instruction found by the walk, and whether it is an error. An error
      in an operand does not stop the decoding, an instruction not valid in 64-bit mode does. */
  function Finish(s: Setup, f: Found): (Cursor, bool)
    requires f.entry < |s.map_.entries|
  {
    var e := s.map_.entries[f.entry];
    if s.dis == 64 && e.inv64 then (f.look.cur, true)
    else
      var (c, bad) := AfterOperands(s.buf, ModesOf(s.dis, e, f.look), e, f.look.cur);
      (c, bad || (e.mnemonic == Mswapgs && s.dis != 64))
  }

  /** The last byte of a 3dnow instruction comes behind its operands. */
  function WithLast(f: Found, c: Cursor): Cursor {
    if f.last >= 0 then c.(pos := c.pos + 1) else c
  }

  predicate BothAccumulator(ops: seq<Operand>, size: nat)
    requires |ops| == 3
  {
    && ops[0].kind == OpReg && ops[0].mem.base == Gpr(size, 0)
    && ops[1].kind == OpReg && ops[1].mem.base == Gpr(size, 0)
  }

  /** What an instruction is: mnemonic, operands, the meaning of the string prefixes, and whether an
      operand is a far pointer in memory. */
  datatype Shape = Shape(mnemonic: Mnemonic, ops: seq<Operand>, rep: bool, repe: bool, repne: bool, far: bool)

  /** xchg of the accumulator with itself, in 16 or 32 bits, is nop; with F3, nop is pause. */
  function Renamed(x: Shape): (y: Shape)
    requires |x.ops| == 3
    ensures |y.ops| == 3
  {
    var y := if x.mnemonic == Mxchg && (BothAccumulator(x.ops, 16) || BothAccumulator(x.ops, 32))
             then x.(mnemonic := Mnop, ops := [x.ops[0].(kind := None), x.ops[1].(kind := None), x.ops[2]]) else x;
    if y.mnemonic == Mnop && y.repe then y.(mnemonic := Mpause, repe := false) else y
  }

  /** What entry e, found with look, makes of the bytes. */
  function EntryShape(s: Setup, e: Entry, look: Look): (x: Shape)
    ensures |x.ops| == 3
  {
    Renamed(Shape(
      e.mnemonic, OperandsOf(s.buf, ModesOf(s.dis, e, look), e, look.cur),
      look.str == 0xF3 && e.str, look.str == 0xF3 && !e.str, look.str == 0xF2,
      e.op1.code.OP_F? || e.op2.code.OP_F? || e.op3.code.OP_F?))
  }

  /** The mnemonic in cell b of a 3dnow table. */
  function NameOf(m: Map, last: int, b: Byte): Mnemonic {
    if 0 <= last < |m.tables| && b < |m.tables[last].cells| && m.tables[last].cells[b] < |m.entries|
    then m.entries[m.tables[last].cells[b]].mnemonic else Minvalid
  }

  lemma NameInTable(m: Map, last: nat, b: Byte)
    requires WellFormed(m) && last < |m.tables| && m.tables[last].kind == Opc3dnow
    ensures |m.tables[last].cells| == 256 && m.tables[last].cells[b] < |m.entries|
    ensures NameOf(m, last, b) == m.entries[m.tables[last].cells[b]].mnemonic
  {
    CellBounds(m, last, b);
  }

  /** What an instruction found by the walk is. */
  function ShapeOf(s: Setup, f: Found): (x: Shape)
    requires f.entry < |s.map_.entries|
    ensures |x.ops| == 3
  {
    var x := EntryShape(s, s.map_.entries[f.entry], f.look);
    if f.last < 0 then x else x.(mnemonic := NameOf(s.map_, f.last, ByteAt(s.buf, Finish(s, f).0.pos)))
  }

  /** The lookups start behind k prefixes and one opcode byte. */
  function FirstLook(s: Setup, start: nat, k: nat): Look
    requires start + k <= |s.buf|
  {
    var p := s.buf[start..start + k];
    Look(Cursor(start + k + 1, false, 0), if IsRex(s.dis, LastOf(p)) then LastOf(p) else 0,
         0x66 in p, 0x67 in p, LastString(p))
  }

  lemma {:induction false} StringOfPrefixes(p: seq<Byte>)
    ensures LastString(p) in {0, 0xF2, 0xF3}
  {
    if p != [] {
      StringOfPrefixes(p[..|p| - 1]);
    }
  }

  /** Where the lookups for an instruction behind k prefixes end. */
  function Lookup(s: Setup, start: nat, k: nat): (f: Found)
    requires WellFormed(s.map_) && start + k <= |s.buf|
    ensures f.entry < |s.map_.entries|
  {
    LevelBounds(s.map_);
    StringOfPrefixes(s.buf[start..start + k]);
    Opc(s, 0, ByteAt(s.buf, start + k), FirstLook(s, start, k))
  }

  /** What ud_decode makes of the bytes from start on: how many it takes, whether they are an
      error, and the entry. */
  datatype Outcome = Outcome(len: int, bad: bool, entry: nat)

  /** With 14 prefixes or more, 15 bytes are taken, and nothing is looked up. */
  function Decoding(s: Setup, start: nat): (o: Outcome)
    requires WellFormed(s.map_) && start <= |s.buf|
    ensures o.entry < |s.map_.entries|
  {
    LevelBounds(s.map_);
    var k := PrefixCount(s.dis, s.buf, start);
    if k >= MAX_INSN_LENGTH - 1 then Outcome(MAX_INSN_LENGTH, true, 0)
    else
      var f := Lookup(s, start, k);
      var (c, bad) := Finish(s, f);
      Outcome(WithLast(f, c).pos - start, bad, if bad then 0 else f.entry)
  }

  /** An instruction with its segment and lock prefixes. */
  datatype Instruction = Instruction(shape: Shape, seg: nat, lock: bool)

  const INVALID_OPS := [NO_OPERAND, NO_OPERAND, NO_OPERAND]

  /** What an error leaves. */
  function Invalid(m: Map): Instruction
    requires |m.entries| > 0
  {
    Instruction(Shape(m.entries[0].mnemonic, INVALID_OPS, false, false, false, false), 0, false)
  }

  /** A segment prefix counts only with a memory operand among the first two, or where the entry
      says so. */
  function Trimmed(e: Entry, x: Instruction): Instruction
    requires |x.shape.ops| == 3
  {
    if !e.seg && x.shape.ops[0].kind != OpMem && x.shape.ops[1].kind != OpMem then x.(seg := 0) else x
  }

  /** The instruction at start, with the last of its segment prefixes. */
  function Untrimmed(s: Setup, start: nat): (x: Instruction)
    requires WellFormed(s.map_) && start <= |s.buf|
    ensures |x.shape.ops| == 3
  {
    var k := PrefixCount(s.dis, s.buf, start);
    var p := s.buf[start..start + k];
    Instruction(ShapeOf(s, Lookup(s, start, k)), LastSegment(p), 0xF0 in p)
  }

  /** The instruction at start. */
  function InsnAt(s: Setup, start: nat): Instruction
    requires WellFormed(s.map_) && start <= |s.buf|
  {
    LevelBounds(s.map_);
    var o := Decoding(s, start);
    if o.bad then Invalid(s.map_) else Trimmed(s.map_.entries[o.entry], Untrimmed(s, start))
  }

  // ----- the length as a sum

  /** The opcode bytes. */
  function OpcodeBytes(s: Setup, le: nat, b: Byte, at: nat): (n: nat)
    requires WellFormed(s.map_) && le < |s.map_.tables| && s.map_.tables[le].kind == OpcTable
    ensures n >= 1
    decreases |s.map_.tables| - le
  {
    CellBounds(s.map_, le, b);
    var c := s.map_.tables[le].cells[b];
    if IsGroup(c) && s.map_.tables[Target(c)].kind == OpcTable
    then 1 + OpcodeBytes(s, Target(c), ByteAt(s.buf, at), at + 1) else 1
  }

  /** No more than the levels of opcode tables left. */
  lemma {:induction false} OpcodeAtMost3(s: Setup, le: nat, b: Byte, at: nat)
    requires WellFormed(s.map_) && le < |s.map_.tables| && s.map_.tables[le].kind == OpcTable
    ensures |s.map_.level| == |s.map_.tables| && OpcodeBytes(s, le, b, at) <= 3 - s.map_.level[le]
    decreases |s.map_.tables| - le
  {
    CellBounds(s.map_, le, b);
    LevelBounds(s.map_);
    var c := s.map_.tables[le].cells[b];
    if IsGroup(c) && s.map_.tables[Target(c)].kind == OpcTable {
      OpcodeAtMost3(s, Target(c), ByteAt(s.buf, at), at + 1);
    }
  }

  function Count(b: bool): nat { if b then 1 else 0 }

  /** The walk through the other tables takes the ModRM byte at most. */
  lemma {:induction false} ExtTakes(s: Setup, ptr: nat, look: Look)
    requires WellFormed(s.map_) && InMap(s.map_, ptr) && Strings(look)
    ensures var c, c' := look.cur, Ext(s, ptr, look).look.cur;
            (c.have ==> c' == c) && c'.pos == c.pos + Count(c'.have) - Count(c.have)
    decreases Rank(s.map_, ptr)
  {
    hide WellFormed, SlotOf, SseSlot;
    if IsGroup(ptr) {
      var t := s.map_.tables[Target(ptr)];
      NextCell(s.map_, ptr, 0);
      if t.kind == OpcSse {
        var idx := SseSlot(t.cells, look);
        NextCell(s.map_, ptr, idx);
        ExtTakes(s, t.cells[idx], Consumed(look, idx));
      } else if t.kind != OpcTable && t.kind != Opc3dnow {
        var look' := if UsesModrm(t.kind) then look.(cur := Read(s.buf, look.cur)) else look;
        var idx := SlotOf(s, t, look');
        NextCell(s.map_, ptr, idx);
        ExtTakes(s, t.cells[idx], look');
      }
    }
  }

  lemma {:induction false} OpcTakes(s: Setup, le: nat, b: Byte, look: Look)
    requires WellFormed(s.map_) && le < |s.map_.tables| && s.map_.tables[le].kind == OpcTable && Strings(look)
    requires !look.cur.have
    ensures var c := Opc(s, le, b, look).look.cur;
            c.pos == look.cur.pos + OpcodeBytes(s, le, b, look.cur.pos) - 1 + Count(c.have)
    decreases |s.map_.tables| - le
  {
    CellBounds(s.map_, le, b);
    hide WellFormed, Ext;
    var c, at := s.map_.tables[le].cells[b], look.cur.pos;
    if IsGroup(c) && s.map_.tables[Target(c)].kind == OpcTable {
      OpcTakes(s, Target(c), ByteAt(s.buf, at), look.(cur := look.cur.(pos := at + 1)));
    } else {
      ExtTakes(s, c, look);
    }
  }

  /** The bytes of operand o at cursor c, without the ModRM byte. */
  function OwnBytes(buf: seq<Byte>, md: Modes, o: EntryOperand, c: Cursor): nat {
    var c := if NeedsModrm(o.code) then Read(buf, c) else c;
    OperandBytes(md, o, c.modrm, ByteAt(buf, c.pos))
  }

  lemma OperandTakes(buf: seq<Byte>, md: Modes, o: EntryOperand, c: Cursor)
    ensures var c' := AfterOperand(buf, md, o, c);
            && c'.pos == c.pos + OwnBytes(buf, md, o, c) + Count(c'.have) - Count(c.have)
            && c'.have == (c.have || NeedsModrm(o.code)) && (c.have ==> c'.modrm == c.modrm)
  {
    hide OperandBytes;
  }

  /** The length of an instruction that is valid in its mode: prefixes, opcode bytes, the ModRM
      byte if the walk or an operand needs it, then for each operand SIB byte and displacement,
      immediate or far pointer, and the last byte of a 3dnow instruction. */
  lemma LengthIsSum(s: Setup, start: nat)
    requires WellFormed(s.map_) && start <= |s.buf| && PrefixCount(s.dis, s.buf, start) < MAX_INSN_LENGTH - 1
    requires var f := Lookup(s, start, PrefixCount(s.dis, s.buf, start));
             !(s.dis == 64 && s.map_.entries[f.entry].inv64)
    ensures var k := PrefixCount(s.dis, s.buf, start);
            var f := Lookup(s, start, k);
            var e, c, md := s.map_.entries[f.entry], f.look.cur, ModesOf(s.dis, s.map_.entries[f.entry], f.look);
            var c1 := AfterOperand(s.buf, md, e.op1, c);
            var c2 := AfterOperand(s.buf, md, e.op2, c1);
            s.map_.tables[0].kind == OpcTable &&
            Decoding(s, start).len ==
              k + OpcodeBytes(s, 0, ByteAt(s.buf, start + k), start + k + 1)
              + Count(c.have || NeedsModrm(e.op1.code) || NeedsModrm(e.op2.code) || NeedsModrm(e.op3.code))
              + OwnBytes(s.buf, md, e.op1, c) + OwnBytes(s.buf, md, e.op2, c1) + OwnBytes(s.buf, md, e.op3, c2)
              + Count(f.last >= 0)
  {
    var k := PrefixCount(s.dis, s.buf, start);
    var f := Lookup(s, start, k);
    var e, c, md := s.map_.entries[f.entry], f.look.cur, ModesOf(s.dis, s.map_.entries[f.entry], f.look);
    var c1 := AfterOperand(s.buf, md, e.op1, c);
    var c2 := AfterOperand(s.buf, md, e.op2, c1);
    LevelBounds(s.map_);
    StringOfPrefixes(s.buf[start..start + k]);
    OpcTakes(s, 0, ByteAt(s.buf, start + k), FirstLook(s, start, k));
    hide WellFormed, PrefixCount, Opc, AfterOperand, ModesOf, OwnBytes, BadOperand, OpcodeBytes;
    OperandTakes(s.buf, md, e.op1, c);
    OperandTakes(s.buf, md, e.op2, c1);
    OperandTakes(s.buf, md, e.op3, c2);
  }

  // ----- the operand size

  /** On the way the walk consumes at most F2, F3 and 66. */
  lemma {:induction false} ExtConsumes(s: Setup, ptr: nat, look: Look)
    requires WellFormed(s.map_) && InMap(s.map_, ptr) && Strings(look)
    ensures var l := Ext(s, ptr, look).look; l.rex == look.rex && l.adr == look.adr && (l.opr ==> look.opr)
    decreases Rank(s.map_, ptr)
  {
    hide WellFormed, SlotOf, SseSlot;
    if IsGroup(ptr) {
      var t := s.map_.tables[Target(ptr)];
      NextCell(s.map_, ptr, 0);
      if t.kind == OpcSse {
        var idx := SseSlot(t.cells, look);
        NextCell(s.map_, ptr, idx);
        ExtConsumes(s, t.cells[idx], Consumed(look, idx));
      } else if t.kind != OpcTable && t.kind != Opc3dnow {
        var look' := if UsesModrm(t.kind) then look.(cur := Read(s.buf, look.cur)) else look;
        var idx := SlotOf(s, t, look');
        NextCell(s.map_, ptr, idx);
        ExtConsumes(s, t.cells[idx], look');
      }
    }
  }

  lemma {:induction false} OpcConsumes(s: Setup, le: nat, b: Byte, look: Look)
    requires WellFormed(s.map_) && le < |s.map_.tables| && s.map_.tables[le].kind == OpcTable && Strings(look)
    ensures var l := Opc(s, le, b, look).look; l.rex == look.rex && l.adr == look.adr && (l.opr ==> look.opr)
    decreases |s.map_.tables| - le
  {
    CellBounds(s.map_, le, b);
    hide WellFormed, Ext;
    var c, at := s.map_.tables[le].cells[b], look.cur.pos;
    if IsGroup(c) && s.map_.tables[Target(c)].kind == OpcTable {
      OpcConsumes(s, Target(c), ByteAt(s.buf, at), look.(cur := look.cur.(pos := at + 1)));
    } else {
      ExtConsumes(s, c, look);
    }
  }

  /** The address size for the operands is the one the lookups went by. The operand size is, just
      if the entry keeps REX.W (or makes up for it by its default), a prefix 66 has not been
      consumed by a prefix table, and without both the entry does not default to 64 bits. */
  lemma SizesAgree(s: Setup, start: nat, k: nat)
    requires WellFormed(s.map_) && start + k <= |s.buf| && s.dis in {16, 32, 64}
    ensures var first, f := FirstLook(s, start, k), Lookup(s, start, k);
            var e := s.map_.entries[f.entry];
            var md := ModesOf(s.dis, e, f.look);
            && md.adr == EffAdrMode(s.dis, first.adr)
            && (md.opr == EffOprMode(s.dis, RexW(first.rex), first.opr) <==>
                if s.dis != 64 then f.look.opr == first.opr
                else if RexW(first.rex) == 1 then RexW(e.rexMask) == 1 || (!f.look.opr && e.def64)
                else if first.opr then f.look.opr
                else !e.def64)
  {
    var first := FirstLook(s, start, k);
    LevelBounds(s.map_);
    StringOfPrefixes(s.buf[start..start + k]);
    OpcConsumes(s, 0, ByteAt(s.buf, start + k), first);
    var f := Lookup(s, start, k);
    hide WellFormed, Opc;
    EffRexBits(f.look.rex, s.map_.entries[f.entry].rexMask);
    assert RexW(first.rex) < 2;
    hide EffRex, RexW;
  }

  /** Every bit of the effective prefix is that of the prefix byte, where the entry allows it. */
  lemma EffRexBits(rex: nat, mask: nat)
    ensures var eff := EffRex(rex, mask);
            && RexW(eff) == And(RexW(rex), RexW(mask)) && RexR(eff) == And(RexR(rex), RexR(mask))
            && RexX(eff) == And(RexX(rex), RexX(mask)) && RexB(eff) == And(RexB(rex), RexB(mask))
            && eff / 64 == rex / 64 % 2
  {
    hide RexW, RexR, RexX, RexB;
    RexBits(rex / 64 % 2, And(RexW(rex), RexW(mask)), And(RexR(rex), RexR(mask)), And(RexX(rex), RexX(mask)),
            And(RexB(rex), RexB(mask)));
  }
}
