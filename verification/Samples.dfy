/** Particular instructions: some longer than the 15 bytes an x86 instruction may have, and one
    whose operand is not of the size the lookups went by. */
module Samples {
  import opened Bytes
  import opened ModRm
  import opened Tables
  import opened Walk
  import Decoder

  const NO_OP := EntryOperand(OP_NONE, 0)

  const INVALID := Entry(Minvalid, NO_OP, NO_OP, NO_OP, false, false, false, false, 0)

  /** mov r, imm of the full operand size, as entry 842 has it behind the opcode B8. */
  const MOV_IMM :=
    Entry(Mother(1), EntryOperand(OP_R(0), 2), EntryOperand(OP_I, 2), NO_OP, false, false, false, false, 9)

  function MovMap(): Map {
    Map([Table(OpcTable, seq(256, i => if i == 0xB8 then 1 else 0))], [INVALID, MOV_IMM], [0])
  }

  lemma MovMapWellFormed()
    ensures WellFormed(MovMap())
  {
  }

  /** n prefixes 66, REX.W, the opcode, an immediate of eight bytes, and perhaps more. */
  function MovCode(n: nat, rest: seq<Byte>): seq<Byte> {
    seq(n, _ => 0x66) + [0x48, 0xB8] + rest
  }

  lemma MovPrefixes(n: nat, rest: seq<Byte>)
    ensures var buf, p := MovCode(n, rest), seq(n, _ => 0x66) + [0x48];
            && |buf| == n + 2 + |rest| && buf[0..n + 1] == p && ByteAt(buf, n + 1) == 0xB8 && LastOf(p) == 0x48
            && PrefixCount(64, buf, 0) == n + 1
  {
    var buf, p := MovCode(n, rest), seq(n, _ => 0x66) + [0x48];
    assert buf[0..n + 1] == p && buf[n + 1] == 0xB8;
    CountPrefixes(64, buf, 0, p);
  }

  lemma MovFinish(s: Setup, look: Look)
    requires s.map_ == MovMap() && s.dis == 64 && look.rex == 0x48
    ensures Finish(s, Found(1, look, -1)) == (look.cur.(pos := look.cur.pos + 8), false)
  {
    MovEntries();
    hide MovMap, EffRex, RexW, RexB, RexR, RexX, Mod, RegField, RmTail;
    RexKept();
    var md := ModesOf(64, MOV_IMM, look);
    assert md.opr == 64;
    assert AfterOperand(s.buf, md, MOV_IMM.op1, look.cur) == look.cur;
    assert AfterOperand(s.buf, md, MOV_IMM.op2, look.cur) == look.cur.(pos := look.cur.pos + 8);
  }

  lemma RexKept()
    ensures EffRex(0x48, 9) == 0x48 && RexW(0x48) == 1
  {
    assert RexW(0x48) == 1 && RexR(0x48) == 0 && RexX(0x48) == 0 && RexB(0x48) == 0 && RexW(9) == 1;
  }

  lemma MovEntries()
    ensures MovMap().entries == [INVALID, MOV_IMM] && MovMap().tables[0].kind == OpcTable
    ensures |MovMap().tables[0].cells| == 256 && MovMap().tables[0].cells[0xB8] == 1
  {
  }

  /** With n prefixes 66, up to 12, the move takes n + 10 bytes: 22 with 12 of them. */
  lemma MovTakes(n: nat, rest: seq<Byte>)
    requires n <= 12 && |rest| >= 8
    ensures var s := Setup(MovMap(), MovCode(n, rest), 64, Any);
            WellFormed(s.map_) && Decoding(s, 0) == Outcome(n + 10, false, 1)
  {
    var s := Setup(MovMap(), MovCode(n, rest), 64, Any);
    MovMapWellFormed();
    MovPrefixes(n, rest);
    MovEntries();
    StringOfPrefixes(s.buf[0..0 + (n + 1)]);
    hide WellFormed, MovMap, MovCode, PrefixCount, LastString, Finish, LastOf;
    var look := FirstLook(s, 0, n + 1);
    assert look.rex == 0x48 && look.cur.pos == n + 2;
    assert Lookup(s, 0, n + 1) == Found(1, look, -1);
    MovFinish(s, look);
  }

  /** And ud_disassemble takes them. */
  method DisassembleMov(n: nat, rest: seq<Byte>) returns (len: nat)
    requires n <= 12 && |rest| >= Decoder.MOST
    ensures len == n + 10
  {
    MovMapWellFormed();
    MovPrefixes(n, rest);
    MovTakes(n, rest);
    hide WellFormed, Decoding, MovMap, MovCode;
    var u := new Decoder.Ud(MovMap(), MovCode(n, rest), false, 64, Any, 0);
    len := u.Disassemble();
  }

  /** Tables through which an instruction takes as many bytes as any can: three opcode bytes, a
      ModRM byte, three operands of eight bytes, and a last byte. */
  function LongMap(): Map {
    Map([Table(OpcTable, seq(256, _ => 0x8001)), Table(OpcTable, seq(256, _ => 0x8002)),
         Table(OpcTable, seq(256, _ => 0x8003)), Table(OpcMod, [0x8004, 0x8004]), Table(Opc3dnow, seq(256, _ => 1))],
        [INVALID, LONG], [0, 1, 2, 0, 0])
  }

  const IMM64 := EntryOperand(OP_I, 64)

  const LONG := Entry(Mother(1), IMM64, IMM64, IMM64, false, false, false, false, 0)

  lemma LongMapWellFormed()
    ensures WellFormed(LongMap())
  {
  }

  lemma LongLookup(s: Setup, b: Byte, look: Look)
    requires s.map_ == LongMap() && !look.cur.have && Strings(look)
    ensures WellFormed(s.map_)
    ensures var f := Opc(s, 0, b, look);
            f.entry == 1 && f.last == 4 && f.look.cur.pos == look.cur.pos + 3
  {
    LongMapWellFormed();
    var at := look.cur.pos;
    var look1 := look.(cur := look.cur.(pos := at + 1));
    var look2 := look.(cur := look.cur.(pos := at + 2));
    var look3 := look2.(cur := Read(s.buf, look2.cur));
    hide WellFormed;
    assert Ext(s, 0x8004, look3) == Found(1, look3, 4);
    assert Ext(s, 0x8003, look2) == Found(1, look3, 4);
    assert Opc(s, 2, ByteAt(s.buf, at + 1), look2) == Found(1, look3, 4);
    assert Opc(s, 1, ByteAt(s.buf, at), look1) == Found(1, look3, 4);
  }

  lemma LongFinish(s: Setup, f: Found)
    requires s.map_ == LongMap() && f.entry == 1
    ensures Finish(s, f) == (f.look.cur.(pos := f.look.cur.pos + 24), false)
  {
    hide ModesOf;
  }

  /** Behind 13 prefixes such an instruction takes 42 bytes. */
  lemma Takes42(rest: seq<Byte>)
    requires |rest| >= 29 && rest[0] == 0
    ensures var s := Setup(LongMap(), seq(13, _ => 0x66) + rest, 64, Any);
            WellFormed(s.map_) && Decoding(s, 0) == Outcome(42, false, 1)
  {
    var p := seq(13, _ => 0x66);
    var s := Setup(LongMap(), p + rest, 64, Any);
    LongMapWellFormed();
    assert s.buf[0..13] == p && s.buf[13] == 0;
    CountPrefixes(64, s.buf, 0, p);
    StringOfPrefixes(s.buf[0..0 + 13]);
    var look := FirstLook(s, 0, 13);
    hide WellFormed, LongMap, PrefixCount, LastString, Finish, Opc;
    LongLookup(s, ByteAt(s.buf, 13), look);
    LongFinish(s, Lookup(s, 0, 13));
  }

  // ----- the operand size

  /** push r of the full operand size, as entry 688 has it behind the opcode 50. */
  const PUSH := Entry(Mother(2), EntryOperand(OP_R(0), 2), NO_OP, NO_OP, false, true, false, false, 1)

  function PushMap(): Map {
    Map([Table(OpcTable, seq(256, i => if i == 0x50 then 1 else 0))], [INVALID, PUSH], [0])
  }

  lemma PushEntries()
    ensures WellFormed(PushMap()) && PushMap().entries == [INVALID, PUSH] && PushMap().tables[0].kind == OpcTable
    ensures |PushMap().tables[0].cells| == 256 && PushMap().tables[0].cells[0x50] == 1
  {
  }

  /** push rax: the lookups go by 32 bits, the operand has 64. */
  lemma PushSizesDiffer(rest: seq<Byte>)
    ensures var s := Setup(PushMap(), [0x50] + rest, 64, Any);
            && WellFormed(s.map_) && Lookup(s, 0, 0).entry == 1
            && EffOprMode(64, RexW(FirstLook(s, 0, 0).rex), FirstLook(s, 0, 0).opr) == 32
            && ModesOf(64, PUSH, Lookup(s, 0, 0).look).opr == 64
  {
    var s := Setup(PushMap(), [0x50] + rest, 64, Any);
    PushEntries();
    assert s.buf[0..0 + 0] == [] && ByteAt(s.buf, 0 + 0) == 0x50;
    var look := FirstLook(s, 0, 0);
    assert look.rex == 0 && !look.opr && look.str == 0;
    hide WellFormed, PushMap;
    assert Lookup(s, 0, 0) == Found(1, look, -1);
    SizesAgree(s, 0, 0);
  }
}
