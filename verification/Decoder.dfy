/** The x86 decoder: input, prefixes, the walk over the lookup tables, operands. */
module Decoder {
  import opened Bytes
  import opened ModRm
  import opened Tables
  import opened Walk

  // bytes of the session buffer
  const SESSION: nat := 64

  // more than any one instruction can take
  const MOST: nat := 42

  /** struct ud. The input is either the buffer itself, or a hook that delivers it byte by byte
      and then the end-of-input mark. */
  class Ud {
    const map_: Map
    const buf: seq<Byte>
    const viaHook: bool
    const sess: array<Byte>
    const disMode: nat
    const vendor: Vendor
    var index: nat
    var inpCurr: Byte
    var ctr: nat
    var inpEnd: bool
    var pc: nat
    var insnOffset: nat
    var error: bool
    var le: nat
    var entry: nat
    var mnemonic: Mnemonic
    var primaryOpcode: Byte
    var haveModrm: bool
    var modrm: Byte
    var brFar: bool
    var pfxSeg: nat
    var pfxOpr: bool
    var pfxAdr: bool
    var pfxLock: bool
    var pfxStr: nat
    var pfxRep: bool
    var pfxRepe: bool
    var pfxRepne: bool
    var pfxRex: nat
    var oprMode: nat
    var adrMode: nat
    var operand: seq<Operand>

    /** Where the instruction at hand begins. */
    ghost function Begin(): int
      reads this`index, this`ctr
    {
      index - ctr
    }

    /** The input behind the instruction at hand is accounted for, and recorded when it comes
        from a hook. */
    ghost predicate Input()
      reads this`index, this`ctr, this`inpEnd, sess
    {
      && sess.Length == SESSION && ctr <= index <= |buf| && ctr <= SESSION && (inpEnd ==> index == |buf|)
      && (viaHook ==> sess[..ctr] == buf[index - ctr..index])
    }

    ghost predicate Fixed()
      reads this`operand, this`le, this`entry, this`pfxStr
    {
      && WellFormed(map_) && disMode in {16, 32, 64} && |operand| == 3 && le < |map_.tables| && entry < |map_.entries|
      && pfxStr in {0, 0xF2, 0xF3}
    }

    /** Nothing has been said about the instruction yet. */
    predicate Blank()
      reads this`operand, this`pfxRep, this`pfxRepe, this`pfxRepne, this`brFar
    {
      operand == INVALID_OPS && !pfxRep && !pfxRepe && !pfxRepne && !brFar
    }

    /** The instruction, as far as it is known. */
    function Made(): Instruction
      reads this`mnemonic, this`operand, this`pfxRep, this`pfxRepe, this`pfxRepne, this`brFar, this`pfxSeg, this`pfxLock
    {
      Instruction(Formed(), pfxSeg, pfxLock)
    }

    /** What has been said about it. */
    function Formed(): Shape
      reads this`mnemonic, this`operand, this`pfxRep, this`pfxRepe, this`pfxRepne, this`brFar
    {
      Shape(mnemonic, operand, pfxRep, pfxRepe, pfxRepne, brFar)
    }

    /** A byte still to be read if the ModRM byte is needed. */
    function Owed(): nat
      reads this`haveModrm
    {
      if haveModrm then 0 else 1
    }

    /** At most k bytes were taken since, one more if the ModRM byte was among them. */
    twostate predicate Spent(k: nat)
      reads this, sess
    {
      Passed(k) && pfxSeg == old(pfxSeg) && pfxLock == old(pfxLock)
    }

    /** The same where segment and lock prefixes may come. */
    twostate predicate Passed(k: nat)
      reads this, sess
    {
      && Input() && Fixed() && Begin() == old(Begin()) && old(ctr) <= ctr && ctr + Owed() <= old(ctr + Owed()) + k
      && pc == old(pc) && insnOffset == old(insnOffset)
      && (old(haveModrm) ==> haveModrm && modrm == old(modrm))
      && (old(error) ==> error) && (old(inpEnd) ==> inpEnd) && (inpEnd ==> error || old(inpEnd))
    }

    /** Of the operands only k may have changed. */
    twostate predicate Only(k: nat)
      reads this`operand
    {
      |operand| == |old(operand)| && forall j :: 0 <= j < |operand| && j != k ==> operand[j] == old(operand)[j]
    }

    function Here(): Setup { Setup(map_, buf, disMode, vendor) }

    function Cur(): Cursor
      reads this`index, this`haveModrm, this`modrm
    {
      Cursor(index, haveModrm, if haveModrm then modrm else 0)
    }

    /** The modes for the operands. */
    function Now(): Modes
      reads this`oprMode, this`adrMode, this`pfxRex
    {
      Modes(disMode, oprMode, adrMode, pfxRex)
    }

    /** What the lookups depend on. */
    function Seen(): Look
      reads this`index, this`haveModrm, this`modrm, this`pfxRex, this`pfxOpr, this`pfxAdr, this`pfxStr
    {
      Look(Cur(), pfxRex, pfxOpr, pfxAdr, pfxStr)
    }

    /** Unless the input has ended: the position is now c, and bad says whether there was an error. */
    twostate predicate Exact(c: Cursor, bad: bool)
      reads this`index, this`haveModrm, this`modrm, this`inpEnd, this`error
    {
      !inpEnd ==> Cur() == c && (error <==> old(error) || bad)
    }

    /** Unless the input has ended: n bytes were taken, and there was no error. */
    twostate predicate Took(n: nat)
      reads this`index, this`inpEnd, this`error
    {
      !inpEnd ==> index == old(index) + n && error == old(error)
    }

    /** inp_next */
    method InpNext() returns (b: Byte)
      requires Input() && ctr < SESSION
      modifies this`index, this`ctr, this`inpEnd, this`inpCurr, this`error, sess
      ensures Input() && Begin() == old(Begin())
      ensures if !old(inpEnd) && old(index) < |buf|
              then ctr == old(ctr) + 1 && b == inpCurr == buf[old(index)] && error == old(error) && !inpEnd
              else ctr == old(ctr) && b == 0 && error && inpEnd && inpCurr == old(inpCurr)
    {
      if !inpEnd {
        if !viaHook {
          if index < |buf| {
            ctr := ctr + 1;
            inpCurr := buf[index];
            index := index + 1;
            return inpCurr;
          }
        } else {
          if index < |buf| {
            inpCurr := buf[index];
            index := index + 1;
            sess[ctr] := inpCurr;
            ctr := ctr + 1;
            SliceGrows(buf, index - ctr, index - 1, old(sess[..ctr]));
            assert sess[..ctr] == old(sess[..ctr]) + [inpCurr];
            return inpCurr;
          }
        }
      }
      inpEnd := true;
      error := true;
      b := 0;
    }

    /** inp_uint8, 16, 32 and 64: n bytes, least significant first. */
    method InpUint(n: nat) returns (v: nat)
      requires Input() && ctr + n <= SESSION
      modifies this`index, this`ctr, this`inpEnd, this`inpCurr, this`error, sess
      ensures Input() && Begin() == old(Begin()) && old(ctr) <= ctr <= old(ctr) + n
      ensures (old(error) ==> error) && (old(inpEnd) ==> inpEnd) && (inpEnd ==> error || old(inpEnd))
      ensures Took(n) && (!inpEnd ==> v == Decode(buf[old(index)..index]))
      decreases n
    {
      if n == 0 {
        return 0;
      }
      var b := InpNext();
      var hi := InpUint(n - 1);
      v := b + 256 * hi;
      if !inpEnd {
        assert buf[old(index)..index] == [b] + buf[old(index) + 1..index];
      }
    }

    /** The ModRM byte, read once. */
    method Modrm() returns (b: Byte)
      requires Input() && Fixed() && ctr + Owed() <= SESSION
      modifies this`index, this`ctr, this`inpEnd, this`inpCurr, this`error, this`modrm, this`haveModrm, sess
      ensures Spent(0) && haveModrm && b == modrm && Exact(Read(buf, old(Cur())), false)
    {
      if !haveModrm {
        modrm := InpNext();
        haveModrm := true;
      }
      b := modrm;
    }

    /** There are only six segment registers. */
    method DecodeReg(k: nat, cls: Class, num: nat, size: nat)
      requires Input() && Fixed() && k < 3
      modifies this`operand, this`error
      ensures Only(k)
      ensures Spent(0)
      ensures cls == SEG && num % 8 > 5 ==> error && operand == old(operand)
      ensures !(cls == SEG && num % 8 > 5) ==>
        error == old(error) && operand[k] == old(operand)[k].(kind := OpReg, size := Resolve(Now(), size) % 256,
          mem := old(operand)[k].mem.(base := RegOf(Now(), cls, num, Resolve(Now(), size))))
    {
      hide WellFormed, RegOf;
      var s := Resolve(Now(), size);
      if cls == SEG {
        if num % 8 > 5 {
          error := true;
          return;
        }
      }
      operand := operand[k := Operand(OpReg, s % 256, operand[k].mem.(base := RegOf(Now(), cls, num, s)))];
    }

    method DecodeA(k: nat)
      requires Input() && Fixed() && k < 3 && ctr + 6 <= SESSION
      modifies this`index, this`ctr, this`inpEnd, this`inpCurr, this`error, this`operand, sess
      ensures Only(k)
      ensures Spent(6) && Took(if oprMode == 16 then 4 else 6)
      ensures operand[k].kind == OpPtr && operand[k].size == if oprMode == 16 then 32 else 48
      ensures operand[k].mem == old(operand)[k].mem.(lval := operand[k].mem.lval)
      ensures !inpEnd ==>
        && index <= |buf|
        && operand[k].mem.lval == Decode(buf[old(index)..index - 2]) + 0x1_0000_0000 * Decode(buf[index - 2..index])
    {
      hide WellFormed, Decode;
      var off, seg;
      if oprMode == 16 {
        off := InpUint(2);
        seg := InpUint(2);
        operand := operand[k := Operand(OpPtr, 32, operand[k].mem.(lval := off + 0x1_0000_0000 * seg))];
      } else {
        off := InpUint(4);
        seg := InpUint(2);
        operand := operand[k := Operand(OpPtr, 48, operand[k].mem.(lval := off + 0x1_0000_0000 * seg))];
      }
    }

    method DecodeImm(k: nat, size: nat, kind: OpKind)
      requires Input() && Fixed() && k < 3 && ctr + 8 <= SESSION
      modifies this`index, this`ctr, this`inpEnd, this`inpCurr, this`error, this`operand, sess
      ensures Only(k)
      ensures Spent(8) && operand[k].kind == kind && operand[k].size == Resolve(Now(), size) % 256
      ensures Took(ByteWidth(operand[k].size))
      ensures operand[k].mem == old(operand)[k].mem.(lval := operand[k].mem.lval)
      ensures !inpEnd && old(operand)[k].mem.lval == 0 ==>
        old(index) <= index <= |buf| && operand[k].mem.lval == Decode(buf[old(index)..index])
    {
      hide WellFormed, Decode, Resolve, Input;
      NothingDecoded();
      var s := Resolve(Now(), size) % 256;
      var v := InpValue(s, operand[k].mem.lval);
      operand := operand[k := Operand(kind, s, operand[k].mem.(lval := v))];
      assert ByteWidth(s) == 0 ==> buf[old(index)..old(index)] == [];
    }

    /** A value of a size that there are values of; of any other size the old one stays. */
    method InpValue(size: nat, was: nat) returns (v: nat)
      requires Input() && Fixed() && ctr + 8 <= SESSION
      modifies this`index, this`ctr, this`inpEnd, this`inpCurr, this`error, sess
      ensures Spent(8) && Took(ByteWidth(size)) && old(index) <= index <= |buf|
      ensures !inpEnd && size in {8, 16, 32, 64} ==> v == Decode(buf[old(index)..index])
      ensures size !in {8, 16, 32, 64} ==> v == was
    {
      hide WellFormed, Decode;
      v := was;
      if size == 8 || size == 16 || size == 32 || size == 64 {
        v := InpUint(size / 8);
      }
    }

    method DecodeModrmReg(k: nat, cls: Class, size: nat)
      requires Input() && Fixed() && k < 3 && ctr + Owed() <= SESSION
      modifies this`index, this`ctr, this`inpEnd, this`inpCurr, this`error, this`modrm, this`haveModrm,
        this`operand, sess
      ensures Only(k)
      ensures Spent(0) && haveModrm && Exact(Read(buf, old(Cur())), cls == SEG && RegField(modrm) > 5)
      ensures !(cls == SEG && RegField(modrm) > 5) ==>
        operand[k] == old(operand)[k].(kind := OpReg, size := Resolve(Now(), size) % 256,
          mem := old(operand)[k].mem.(
            base := RegOf(Now(), cls, 8 * RexR(pfxRex) + RegField(modrm), Resolve(Now(), size))))
    {
      hide WellFormed, RegOf, RexR, RegField, Resolve;
      var b := Modrm();
      FieldOfNumber(RexR(pfxRex), b);
      DecodeReg(k, cls, 8 * RexR(pfxRex) + RegField(b), size);
    }

    method DecodeMemDisp(k: nat, width: nat)
      requires Input() && Fixed() && k < 3 && width in {8, 16, 32, 64} && ctr + width / 8 <= SESSION
      modifies this`index, this`ctr, this`inpEnd, this`inpCurr, this`error, this`operand, sess
      ensures Only(k)
      ensures Spent(width / 8) && Took(width / 8)
      ensures operand[k].kind == old(operand)[k].kind && operand[k].size == old(operand)[k].size
      ensures !inpEnd ==>
        operand[k].mem == old(operand)[k].mem.(offset := width, lval := Decode(buf[old(index)..index]))
    {
      hide WellFormed, Decode;
      var v := InpUint(width / 8);
      operand := operand[k := operand[k].(mem := operand[k].mem.(offset := width, lval := v))];
    }

    /** The SIB byte, if there is one. */
    method ReadSib() returns (sib: Byte)
      requires Input() && Fixed() && haveModrm && ctr < SESSION
      modifies this`index, this`ctr, this`inpEnd, this`inpCurr, this`error, sess
      ensures Spent(1) && Took(if Rm(modrm) == 4 then 1 else 0)
      ensures !inpEnd ==> old(index) <= index <= |buf| && sib == if Rm(modrm) == 4 then ByteAt(buf, old(index)) else 0
    {
      hide WellFormed;
      sib := 0;
      if Rm(modrm) == 4 {
        sib := InpNext();
      }
    }

    /** The memory operand of 64-bit addressing: the bytes taken are those of the addressing
        form, and the operand is what they decode to. */
    method DecodeMem64(k: nat)
      requires Input() && Fixed() && k < 3 && haveModrm && ctr + 5 <= SESSION
      modifies this`index, this`ctr, this`inpEnd, this`inpCurr, this`error, this`operand, sess
      ensures Only(k)
      ensures operand[k].kind == old(operand)[k].kind && operand[k].size == old(operand)[k].size
      ensures Spent(5) && Took(TailLength(64, modrm, pfxRex, ByteAt(buf, old(index))))
      ensures !inpEnd ==>
        old(index) <= index <= |buf| && operand[k].mem == Decoded(64, modrm, pfxRex, buf[old(index)..index])
    {
      hide WellFormed, Decode, RexB, RexX, Scale, Mem64, Offset64, TailLength, Decoded;
      var sib := ReadSib();
      var m := MemFields(modrm, pfxRex, sib);
      operand := operand[k := operand[k].(mem := m)];
      ghost var at := index;
      if m.offset != 0 {
        DecodeMemDisp(k, m.offset);
      }
      if !inpEnd {
        FormRead(64, buf, old(index), at, index, modrm, pfxRex, sib, operand[k].mem);
      }
    }

    /** The fields of the operand, step by step. */
    method MemFields(modrm: nat, rex: nat, sib: nat) returns (m: Mem)
      ensures m == Mem64(modrm, rex, sib) && m.offset == Offset64(modrm, rex, sib) && m.lval == 0
    {
      var mod, offset := Mod(modrm), 0;
      var rm := 8 * RexB(rex) + Rm(modrm);
      m := Mem(Gpr(64, rm), NoReg, 0, 0, 0);
      if mod == 1 {
        offset := 8;
      } else if mod == 2 {
        offset := 32;
      } else if mod == 0 && rm % 8 == 5 {
        m := m.(base := Rip);
        offset := 32;
      }
      if rm % 8 == 4 {
        var index, base := RegField(sib) + 8 * RexX(rex), sib % 8 + 8 * RexB(rex);
        m := m.(scale := Scale(sib / 64), index := Gpr(64, index), base := Gpr(64, base));
        if index == RSP {
          m := m.(index := NoReg, scale := 0);
        }
        if base == RBP || base == R13 {
          if mod == 0 {
            m := m.(base := NoReg);
          }
          offset := if mod == 1 then 8 else 32;
        }
      }
      m := m.(offset := offset);
    }

    method DecodeModrmRm(k: nat, cls: Class, size: nat)
      requires Input() && Fixed() && k < 3 && ctr + Owed() + 5 <= SESSION && cls != SEG
      modifies this`index, this`ctr, this`inpEnd, this`inpCurr, this`error, this`modrm, this`haveModrm,
        this`operand, sess
      ensures Only(k)
      ensures Spent(5) && haveModrm && Exact(AfterRm(buf, Now(), old(Cur())), false)
      ensures !inpEnd && old(operand)[k].mem == NO_MEM ==>
        operand[k] == RmOperand(buf, Now(), cls, Resolve(Now(), size), old(Cur()))
    {
      hide WellFormed, TailLength, Decoded, Mod, Rm, RegField, RexB, RexX, RegOf, Resolve, RmTail, Input, Decode,
        HasSib, Slice;
      var b := Modrm();
      if Mod(b) == 3 {
        NoTail(Now(), b, ByteAt(buf, index));
        DecodeReg(k, cls, 8 * RexB(pfxRex) + Rm(b), size);
        return;
      }
      operand := operand[k := Operand(OpMem, Resolve(Now(), size) % 256, operand[k].mem)];
      ghost var at := index;
      DecodeMem(k);
      if !inpEnd {
        SliceIs(buf, at, index);
      }
    }

    /** A memory operand, by the address size. */
    method DecodeMem(k: nat)
      requires Input() && Fixed() && k < 3 && haveModrm && Mod(modrm) != 3 && ctr + 5 <= SESSION
      modifies this`index, this`ctr, this`inpEnd, this`inpCurr, this`error, this`operand, sess
      ensures Only(k) && Spent(5) && Took(RmTail(Now(), modrm, ByteAt(buf, old(index))))
      ensures operand[k].kind == old(operand)[k].kind && operand[k].size == old(operand)[k].size
      ensures !inpEnd ==> old(index) <= index <= |buf|
      ensures !inpEnd && old(operand)[k].mem == NO_MEM ==>
        operand[k].mem == Decoded(adrMode, modrm, pfxRex, buf[old(index)..index])
    {
      hide WellFormed, TailLength, Decoded, Mod, Input, Decode;
      OtherIs16(adrMode, modrm, pfxRex, ByteAt(buf, index));
      if adrMode == 64 {
        DecodeMem64(k);
      } else if adrMode == 32 {
        DecodeMem32(k);
      } else {
        DecodeMem16(k);
      }
    }

    /** 32-bit addressing. */
    method DecodeMem32(k: nat)
      requires Input() && Fixed() && k < 3 && haveModrm && ctr + 5 <= SESSION
      modifies this`index, this`ctr, this`inpEnd, this`inpCurr, this`error, this`operand, sess
      ensures Only(k)
      ensures operand[k].kind == old(operand)[k].kind && operand[k].size == old(operand)[k].size
      ensures Spent(5) && Took(TailLength(32, modrm, pfxRex, ByteAt(buf, old(index))))
      ensures !inpEnd ==> old(index) <= index <= |buf|
      ensures !inpEnd && old(operand)[k].mem == NO_MEM ==>
        operand[k].mem == Decoded(32, modrm, pfxRex, buf[old(index)..index])
    {
      hide WellFormed, Decode, RexB, RexX, Scale, Mem32, Offset32, TailLength, Decoded;
      var sib := ReadSib();
      var m, offset := MemFields32(modrm, pfxRex, sib, operand[k].mem);
      operand := operand[k := operand[k].(mem := m)];
      ghost var at := index;
      if offset != 0 {
        DecodeMemDisp(k, offset);
      }
      if !inpEnd {
        TailRead(32, buf, old(index), at, index, modrm, pfxRex, sib);
        if old(operand)[k].mem == NO_MEM {
          FormRead(32, buf, old(index), at, index, modrm, pfxRex, sib, operand[k].mem);
        }
      }
    }

    /** The fields of the operand, and the width of its displacement. */
    method MemFields32(modrm: nat, rex: nat, sib: nat, was: Mem) returns (m: Mem, offset: nat)
      ensures offset == Offset32(modrm, rex, sib)
      ensures was == NO_MEM ==> m == Mem32(modrm, rex, sib).(offset := 0)
    {
      var rm, mod := 8 * RexB(rex) + Rm(modrm), Mod(modrm);
      m, offset := was.(base := Gpr(32, rm)), 0;
      if mod == 1 {
        offset := 8;
      } else if mod == 2 {
        offset := 32;
      } else if mod == 0 && rm == 5 {
        m := m.(base := NoReg);
        offset := 32;
      }
      if rm % 8 == 4 {
        var index, base := RegField(sib) + 8 * RexX(rex), sib % 8 + 8 * RexB(rex);
        m := m.(scale := Scale(sib / 64), index := Gpr(32, index), base := Gpr(32, base));
        if index == RSP {
          m := m.(index := NoReg, scale := 0);
        }
        if base == RBP {
          if mod == 0 {
            m := m.(base := NoReg);
          }
          offset := if mod == 1 then 8 else 32;
        }
      }
    }

    /** 16-bit addressing. */
    method DecodeMem16(k: nat)
      requires Input() && Fixed() && k < 3 && haveModrm && ctr + 5 <= SESSION
      modifies this`index, this`ctr, this`inpEnd, this`inpCurr, this`error, this`operand, sess
      ensures Only(k)
      ensures operand[k].kind == old(operand)[k].kind && operand[k].size == old(operand)[k].size
      ensures Spent(2) && Took(TailLength(16, modrm, pfxRex, ByteAt(buf, old(index))))
      ensures !inpEnd ==> old(index) <= index <= |buf|
      ensures !inpEnd && old(operand)[k].mem == NO_MEM ==>
        operand[k].mem == Decoded(16, modrm, pfxRex, buf[old(index)..index])
    {
      hide WellFormed, Decode, Mem16, Offset16, TailLength, Decoded;
      var m, offset := MemFields16(modrm, pfxRex, operand[k].mem);
      operand := operand[k := operand[k].(mem := m)];
      ghost var at := index;
      if offset != 0 {
        DecodeMemDisp(k, offset);
      }
      if !inpEnd {
        TailRead(16, buf, old(index), at, index, modrm, pfxRex, 0);
        if old(operand)[k].mem == NO_MEM {
          FormRead(16, buf, old(index), at, index, modrm, pfxRex, 0, operand[k].mem);
        }
      }
    }

    method MemFields16(modrm: nat, rex: nat, was: Mem) returns (m: Mem, offset: nat)
      ensures offset == Offset16(modrm, rex)
      ensures was == NO_MEM ==> m == Mem16(modrm, rex).(offset := 0)
    {
      var rm, mod := 8 * RexB(rex) + Rm(modrm), Mod(modrm);
      var bases := [3, 3, 5, 5, 6, 7, 5, 3];
      var indices := [Gpr(16, 6), Gpr(16, 7), Gpr(16, 6), Gpr(16, 7), NoReg, NoReg, NoReg, NoReg];
      offset, m := 0, was.(base := Gpr(16, bases[rm % 8]), index := indices[rm % 8]);
      if mod == 0 && rm == 6 {
        offset := 16;
        m := m.(base := NoReg);
      } else if mod == 1 {
        offset := 8;
      } else if mod == 2 {
        offset := 16;
      }
    }

    method DecodeMoffset(k: nat, size: nat)
      requires Input() && Fixed() && k < 3 && ctr + 8 <= SESSION
      modifies this`index, this`ctr, this`inpEnd, this`inpCurr, this`error, this`operand, sess
      ensures Only(k)
      ensures operand[k].kind == OpMem && operand[k].size == Resolve(Now(), size) % 256
      ensures Spent(8) && Took(ByteWidth(adrMode))
      ensures !inpEnd && old(operand)[k].mem == NO_MEM ==>
        && old(index) <= index <= |buf|
        && operand[k].mem == NO_MEM.(offset := 8 * ByteWidth(adrMode), lval := Decode(buf[old(index)..index]))
    {
      hide WellFormed, Decode;
      NothingDecoded();
      operand := operand[k := Operand(OpMem, Resolve(Now(), size) % 256, operand[k].mem)];
      if adrMode == 8 || adrMode == 16 || adrMode == 32 || adrMode == 64 {
        DecodeMemDisp(k, adrMode);
      } else {
        assert buf[index..index] == [];
      }
    }

    /** One operand: its bytes, at most eight besides the ModRM byte, and what its entry says. */
    method DecodeOperand(k: nat, o: EntryOperand)
      requires Input() && Fixed() && k < 3 && ctr + Owed() + 8 <= SESSION
      modifies this`index, this`ctr, this`inpEnd, this`inpCurr, this`error, this`modrm, this`haveModrm, this`operand,
        this`brFar, sess
      ensures Only(k) && Spent(8) && (NeedsModrm(o.code) ==> haveModrm)
      ensures Exact(AfterOperand(buf, Now(), o, old(Cur())), BadOperand(Now(), o.code, Cur().modrm))
      ensures !inpEnd && !BadOperand(Now(), o.code, Cur().modrm) && old(operand)[k] == NO_OPERAND ==>
        operand[k] == OperandOf(buf, Now(), o, old(Cur()))
      ensures brFar <==> old(brFar) || o.code.OP_F?
    {
      hide WellFormed, AfterOperand, BadOperand, OperandOf, Input;
      if ByModrm(o.code) {
        DecodeRmOperand(k, o);
      } else if ByReg(o.code) {
        DecodeRegOperand(k, o);
      } else if Implied(o.code) {
        DecodeImplied(k, o);
      } else {
        DecodeOther(k, o);
      }
    }

    /** The operands in the reg field. */
    method DecodeRegOperand(k: nat, o: EntryOperand)
      requires Input() && Fixed() && k < 3 && ctr + Owed() <= SESSION && ByReg(o.code)
      modifies this`index, this`ctr, this`inpEnd, this`inpCurr, this`error, this`modrm, this`haveModrm,
        this`operand, sess
      ensures Only(k) && Spent(0) && haveModrm
      ensures Exact(AfterOperand(buf, Now(), o, old(Cur())), BadOperand(Now(), o.code, Cur().modrm))
      ensures !inpEnd && !BadOperand(Now(), o.code, Cur().modrm) && old(operand)[k] == NO_OPERAND ==>
        operand[k] == OperandOf(buf, Now(), o, old(Cur()))
    {
      hide WellFormed, Input, RegField, RexR, RegOf, Resolve;
      DecodeModrmReg(k, ClassOf(o.code), o.size);
    }

    /** Far pointers, immediates, and addresses without a ModRM byte. */
    method DecodeOther(k: nat, o: EntryOperand)
      requires Input() && Fixed() && k < 3 && ctr + 8 <= SESSION
      requires !ByModrm(o.code) && !ByReg(o.code) && !Implied(o.code)
      modifies this`index, this`ctr, this`inpEnd, this`inpCurr, this`error, this`operand, sess
      ensures Only(k) && Spent(8)
      ensures Exact(AfterOperand(buf, Now(), o, old(Cur())), BadOperand(Now(), o.code, Cur().modrm))
      ensures !inpEnd && !BadOperand(Now(), o.code, Cur().modrm) && old(operand)[k] == NO_OPERAND ==>
        operand[k] == OperandOf(buf, Now(), o, old(Cur()))
    {
      hide WellFormed, Input, Decode, Resolve, OperandOf;
      match o.code {
        case OP_A => DecodeA(k);
        case OP_sI => DecodeImm(k, o.size, OpImm);
        case OP_I => DecodeImm(k, o.size, OpImm);
        case OP_O => DecodeMoffset(k, o.size);
        case OP_J => DecodeImm(k, o.size, OpJimm);
      }
      if !inpEnd && old(operand)[k] == NO_OPERAND {
        if o.code.OP_A? {
          PointerValue(buf, old(index), index);
        }
        OtherIs(buf, Now(), o, old(Cur()), index, operand[k]);
      }
    }

    /** The operands in the r/m field. */
    method DecodeRmOperand(k: nat, o: EntryOperand)
      requires Input() && Fixed() && k < 3 && ctr + Owed() + 5 <= SESSION && ByModrm(o.code)
      modifies this`index, this`ctr, this`inpEnd, this`inpCurr, this`error, this`modrm, this`haveModrm, this`operand,
        this`brFar, sess
      ensures Only(k) && Spent(5) && haveModrm
      ensures Exact(AfterOperand(buf, Now(), o, old(Cur())), BadOperand(Now(), o.code, Cur().modrm))
      ensures !inpEnd && !BadOperand(Now(), o.code, Cur().modrm) && old(operand)[k] == NO_OPERAND ==>
        operand[k] == OperandOf(buf, Now(), o, old(Cur()))
      ensures brFar <==> old(brFar) || o.code.OP_F?
    {
      hide WellFormed, AfterOperand, BadOperand, OperandOf, Input;
      if o.code.OP_F? {
        brFar := true;
      }
      if Checked(o.code) {
        DecodeChecked(k, o, RmClass(o.code));
      } else {
        DecodeUnchecked(k, o, RmClass(o.code));
      }
    }

    /** Those that must be, or must not be, a register. */
    method DecodeChecked(k: nat, o: EntryOperand, cls: Class)
      requires Input() && Fixed() && k < 3 && ctr + Owed() + 5 <= SESSION && ByModrm(o.code) && Checked(o.code)
      requires cls == ClassOf(o.code) != SEG
      modifies this`index, this`ctr, this`inpEnd, this`inpCurr, this`error, this`modrm, this`haveModrm,
        this`operand, sess
      ensures Only(k) && Spent(5) && haveModrm
      ensures Exact(AfterOperand(buf, Now(), o, old(Cur())), BadOperand(Now(), o.code, Cur().modrm))
      ensures !inpEnd && !BadOperand(Now(), o.code, Cur().modrm) && old(operand)[k] == NO_OPERAND ==>
        operand[k] == OperandOf(buf, Now(), o, old(Cur()))
    {
      hide WellFormed, Mod, Rm, RexB, RegOf, Resolve, MxSize, SizeOf, AfterOperand, AfterRm, BadOperand, OperandOf,
        Input, ClassOf, KindOf, RmOperand;
      DecodeMemory(k, o.size, !(o.code.OP_F? || o.code.OP_M?), cls);
      RmPosition(buf, Now(), o, old(Cur()));
      RmBad(Now(), o, modrm);
      RmIs(buf, Now(), o, old(Cur()));
    }

    /** Those that may be either; the size of two depends on which. */
    method DecodeUnchecked(k: nat, o: EntryOperand, cls: Class)
      requires Input() && Fixed() && k < 3 && ctr + Owed() + 5 <= SESSION && ByModrm(o.code) && !Checked(o.code)
      requires cls == ClassOf(o.code) != SEG
      modifies this`index, this`ctr, this`inpEnd, this`inpCurr, this`error, this`modrm, this`haveModrm,
        this`operand, sess
      ensures Only(k) && Spent(5) && haveModrm
      ensures Exact(AfterOperand(buf, Now(), o, old(Cur())), BadOperand(Now(), o.code, Cur().modrm))
      ensures !inpEnd && !BadOperand(Now(), o.code, Cur().modrm) && old(operand)[k] == NO_OPERAND ==>
        operand[k] == OperandOf(buf, Now(), o, old(Cur()))
    {
      hide WellFormed, Mod, Rm, RexB, RegOf, Resolve, MxSize, SizeOf, AfterOperand, AfterRm, BadOperand, OperandOf,
        Input, ClassOf, KindOf, RmOperand;
      ReadTwice(buf, Now(), Cur());
      var size := o.size;
      if o.code.OP_MR? || o.code.OP_MU? {
        var b := Modrm();
        size := MxSize(Mod(b), size);
      }
      DecodeModrmRm(k, cls, size);
      RmPosition(buf, Now(), o, old(Cur()));
      RmBad(Now(), o, modrm);
      RmIs(buf, Now(), o, old(Cur()));
    }

    /** The registers an operand in the r/m field is taken from. */
    function RmClass(c: OpCode): (cls: Class)
      requires ByModrm(c)
      ensures cls == ClassOf(c) != SEG
    {
      match c
      case OP_N => MMX
      case OP_Q => MMX
      case OP_U => XMM
      case OP_W => XMM
      case OP_MU => XMM
      case _ => GPR
    }

    /** Operands that take no bytes. */
    method DecodeImplied(k: nat, o: EntryOperand)
      requires Input() && Fixed() && k < 3 && Implied(o.code)
      modifies this`error, this`operand
      ensures Only(k)
      ensures Spent(0)
      ensures Exact(AfterOperand(buf, Now(), o, old(Cur())), BadOperand(Now(), o.code, Cur().modrm))
      ensures !inpEnd && !BadOperand(Now(), o.code, Cur().modrm) && old(operand)[k] == NO_OPERAND ==>
        operand[k] == OperandOf(buf, Now(), o, old(Cur()))
    {
      hide WellFormed, Input, RexB, RegOf, Resolve, AfterOperand;
      ImpliedStays(buf, Now(), o, Cur());
      if o.code.OP_R? {
        DecodeReg(k, GPR, 8 * RexB(pfxRex) + o.code.n, o.size);
      } else if o.code.OP_ACD? {
        DecodeReg(k, GPR, o.code.n, o.size);
      } else if !o.code.OP_NONE? {
        DecodeConstant(k, o);
      }
    }

    /** Constants, and registers that are always the same. */
    method DecodeConstant(k: nat, o: EntryOperand)
      requires Input() && Fixed() && k < 3 && (o.code.OP_Seg? || o.code.OP_ST? || o.code.OP_I1? || o.code.OP_I3?)
      modifies this`error, this`operand
      ensures Only(k) && Spent(0)
      ensures error <==> old(error) || BadOperand(Now(), o.code, Cur().modrm)
      ensures !inpEnd && !BadOperand(Now(), o.code, Cur().modrm) && old(operand)[k] == NO_OPERAND ==>
        operand[k] == OperandOf(buf, Now(), o, old(Cur()))
    {
      hide WellFormed, Input, OperandOf;
      ConstantIs(buf, Now(), o, Cur());
      var x := operand[k];
      match o.code {
        case OP_Seg(n) =>
          if disMode == 64 && n != 4 && n != 5 {
            error := true;
          }
          x := Operand(OpReg, 16, x.mem.(base := Other(5, n)));
        case OP_I1 => x := Operand(OpConst, x.size, x.mem.(lval := 1));
        case OP_I3 => x := Operand(OpConst, x.size, x.mem.(lval := 3));
        case OP_ST(n) => x := Operand(OpReg, 80, x.mem.(base := Other(6, n)));
      }
      operand := operand[k := x];
    }

    /** Operands that must be a register, or must not be one; a wrong one is an error, and is
        decoded all the same. */
    method DecodeMemory(k: nat, size: nat, register: bool, cls: Class)
      requires Input() && Fixed() && k < 3 && ctr + Owed() + 5 <= SESSION && cls != SEG
      modifies this`index, this`ctr, this`inpEnd, this`inpCurr, this`error, this`modrm, this`haveModrm,
        this`operand, sess
      ensures Only(k)
      ensures Spent(5) && haveModrm && Exact(AfterRm(buf, Now(), old(Cur())), (Mod(modrm) == 3) != register)
      ensures !inpEnd && old(operand)[k].mem == NO_MEM ==>
        operand[k] == RmOperand(buf, Now(), cls, Resolve(Now(), size), old(Cur()))
    {
      hide WellFormed, Mod, Resolve, RmTail, RmOperand;
      ReadTwice(buf, Now(), Cur());
      var b := Modrm();
      if (Mod(b) == 3) != register {
        error := true;
      }
      DecodeModrmRm(k, cls, size);
    }

    method DecodeOperands()
      requires Input() && Fixed() && ctr + Owed() + 24 <= SESSION
      modifies this`index, this`ctr, this`inpEnd, this`inpCurr, this`error, this`modrm, this`haveModrm, this`operand,
        this`brFar, sess
      ensures Spent(24)
      ensures var (c, bad) := AfterOperands(buf, Now(), map_.entries[entry], old(Cur())); Exact(c, bad)
      ensures !inpEnd && !error && old(operand) == INVALID_OPS ==>
        operand == OperandsOf(buf, Now(), map_.entries[entry], old(Cur()))
      ensures var e := map_.entries[entry];
              brFar <==> old(brFar) || e.op1.code.OP_F? || e.op2.code.OP_F? || e.op3.code.OP_F?
    {
      hide WellFormed, Mod, AfterOperand, BadOperand, Input, OperandOf;
      var e := map_.entries[entry];
      DecodeOperand(0, e.op1);
      DecodeOperand(1, e.op2);
      DecodeOperand(2, e.op3);
    }

    // ----- from the table entry to the instruction

    method ResolvePfxStr()
      requires Input() && Fixed()
      modifies this`pfxRep, this`pfxRepe, this`pfxRepne
      ensures Spent(0)
      ensures pfxRep <==> old(pfxRep) || (pfxStr == 0xF3 && map_.entries[entry].str)
      ensures pfxRepe <==> old(pfxRepe) || (pfxStr == 0xF3 && !map_.entries[entry].str)
      ensures pfxRepne <==> old(pfxRepne) || pfxStr == 0xF2
    {
      if pfxStr == 0xF3 {
        if map_.entries[entry].str {
          pfxRep := true;
        } else {
          pfxRepe := true;
        }
      } else if pfxStr == 0xF2 {
        pfxRepne := true;
      }
    }

    /** Operand and address size and the effective REX bits for the operands. */
    method ResolveMode() returns (rc: int)
      requires Input() && Fixed()
      modifies this`error, this`pfxRex, this`oprMode, this`adrMode
      ensures Spent(0) && (rc == 0 <==> !old(error) && !(disMode == 64 && map_.entries[entry].inv64))
      ensures error <==> old(error) || rc != 0
      ensures rc == 0 ==> Now() == ModesOf(disMode, map_.entries[entry], old(Seen()))
    {
      hide WellFormed, EffRex, RexW;
      if error {
        return -1;
      }
      var e := map_.entries[entry];
      if disMode == 64 {
        if e.inv64 {
          error := true;
          return -1;
        }
        pfxRex := EffRex(pfxRex, e.rexMask);
        oprMode := if RexW(pfxRex) != 0 then 64 else if pfxOpr then 16 else if e.def64 then 64 else 32;
        adrMode := if pfxAdr then 32 else 64;
      } else if disMode == 32 {
        oprMode := if pfxOpr then 16 else 32;
        adrMode := if pfxAdr then 16 else 32;
      } else if disMode == 16 {
        oprMode := if pfxOpr then 32 else 16;
        adrMode := if pfxAdr then 32 else 16;
      }
      return 0;
    }

    method ResolveMnemonic() returns (rc: int)
      requires Input() && Fixed()
      modifies this`error, this`mnemonic, this`operand, this`pfxRepe
      ensures Spent(0) && (error <==> old(error) || (old(mnemonic) == Mswapgs && disMode != 64)) && (rc == -1 ==> error)
      ensures rc == 0 || rc == -1
      ensures rc == 0 ==> Formed() == Renamed(old(Formed()))
    {
      hide WellFormed, BothAccumulator;
      if mnemonic == Mswapgs && disMode != 64 {
        error := true;
        return -1;
      }
      if mnemonic == Mxchg {
        if BothAccumulator(operand, 16) || BothAccumulator(operand, 32) {
          operand := [operand[0].(kind := None), operand[1].(kind := None), operand[2]];
          mnemonic := Mnop;
        }
      }
      if mnemonic == Mnop && pfxRepe {
        pfxRepe := false;
        mnemonic := Mpause;
      }
      return 0;
    }

    /** The instruction of an entry: its bytes, and whether it is an error. */
    method DecodeInsn(ptr: nat) returns (rc: int)
      requires Input() && Fixed() && ptr < |map_.entries| && ctr + Owed() + 24 <= SESSION && Blank()
      modifies this, sess
      ensures Spent(24) && le == old(le) && entry == ptr && (rc == -1 ==> error)
      ensures !old(error) ==> Ended(Found(ptr, old(Seen()), -1))
    {
      hide WellFormed, Ended, Input, Seen;
      entry := ptr;
      mnemonic := map_.entries[entry].mnemonic;
      ResolvePfxStr();
      rc := DecodeEntry();
    }

    method DecodeEntry() returns (rc: int)
      requires Input() && Fixed() && ctr + Owed() + 24 <= SESSION
      requires var e := map_.entries[entry];
               Formed() == Shape(e.mnemonic, INVALID_OPS, pfxStr == 0xF3 && e.str, pfxStr == 0xF3 && !e.str,
                                 pfxStr == 0xF2, false)
      modifies this`index, this`ctr, this`inpEnd, this`inpCurr, this`error, this`modrm, this`haveModrm, this`operand,
        this`brFar, this`pfxRex, this`oprMode, this`adrMode, this`mnemonic, this`pfxRepe, sess
      ensures Spent(24) && (rc == -1 ==> error)
      ensures !old(error) ==> Ended(Found(entry, old(Seen()), -1))
    {
      hide WellFormed, AfterOperands, ModesOf, OperandsOf, Renamed, Input, Finish, ShapeOf, EntryShape;
      FinishEntry(Here(), entry, Seen());
      rc := ResolveMode();
      if rc != 0 {
        return -1;
      }
      rc := DecodeRest();
    }

    /** Operands and mnemonic. */
    method DecodeRest() returns (rc: int)
      requires Input() && Fixed() && ctr + Owed() + 24 <= SESSION
      requires operand == INVALID_OPS && !brFar && mnemonic == map_.entries[entry].mnemonic
      modifies this`index, this`ctr, this`inpEnd, this`inpCurr, this`error, this`modrm, this`haveModrm, this`operand,
        this`brFar, this`mnemonic, this`pfxRepe, sess
      ensures Spent(24) && (rc == -1 ==> error)
      ensures !inpEnd ==>
        var e := map_.entries[entry];
        var (c, bad) := AfterOperands(buf, Now(), e, old(Cur()));
        && Cur() == c && (error <==> old(error) || bad || (e.mnemonic == Mswapgs && disMode != 64))
        && (!error ==>
              Formed() == Renamed(Shape(e.mnemonic, OperandsOf(buf, Now(), e, old(Cur())),
                                        pfxRep, old(pfxRepe), pfxRepne,
                                        e.op1.code.OP_F? || e.op2.code.OP_F? || e.op3.code.OP_F?)))
    {
      hide WellFormed, AfterOperands, OperandsOf, Renamed, Input;
      DecodeOperands();
      rc := ResolveMnemonic();
    }

    // ----- the walk over the lookup tables

    /** A cell that decode_ext can follow: an instruction, or a table that is no opcode table, and
        an x87 table only behind a ModRM byte of C0 or more. */
    predicate Follows(c: nat)
      reads this`haveModrm, this`modrm
    {
      && InMap(map_, c)
      && (IsGroup(c) ==>
            && map_.tables[Target(c)].kind != OpcTable
            && (map_.tables[Target(c)].kind == OpcX87 ==> haveModrm && Mod(modrm) == 3))
    }

    /** Unless the input has ended: the walk came to f, its bytes and those behind it have been
        taken, its entry is named, and there is an error just if it is one. */
    predicate Ended(f: Found)
      requires f.entry < |map_.entries|
      reads this`index, this`haveModrm, this`modrm, this`inpEnd, this`error, this`entry, this`mnemonic, this`operand,
        this`pfxRep, this`pfxRepe, this`pfxRepne, this`brFar
    {
      !inpEnd ==>
        var (c, bad) := Finish(Here(), f);
        && entry == f.entry && Cur() == WithLast(f, c) && (error <==> bad)
        && (!error ==> Formed() == ShapeOf(Here(), f))
    }

    /** 3dnow: the operands first, then the byte that names the instruction. */
    method Decode3dnow() returns (rc: int)
      requires Blank() && Input() && Fixed() && ctr + Owed() + 25 <= SESSION && map_.tables[le].kind == Opc3dnow
      modifies this, sess
      ensures Spent(25) && le == old(le) && |map_.tables[le].cells| == 256 && (rc == -1 ==> error)
      ensures map_.tables[le].cells[12] < |map_.entries|
      ensures !old(error) ==> Ended(Found(map_.tables[le].cells[12], old(Seen()), le))
      ensures !error ==> old(index) < index && mnemonic == NameOf(map_, le, ByteAt(buf, index - 1))
    {
      hide WellFormed, Finish, Input, ShapeOf, NameOf;
      NameInTable(map_, le, 12);
      FinishLast(Here(), map_.tables[le].cells[12], Seen(), le);
      var ignored := DecodeInsn(map_.tables[le].cells[12]);
      rc := NameLast();
    }

    method NameLast() returns (rc: int)
      requires Input() && Fixed() && ctr < SESSION && map_.tables[le].kind == Opc3dnow
      modifies this`index, this`ctr, this`inpEnd, this`inpCurr, this`error, this`mnemonic, sess
      ensures Spent(1) && Took(1) && (rc == -1 ==> error)
      ensures !error ==> index == old(index) + 1 && mnemonic == NameOf(map_, le, ByteAt(buf, old(index)))
    {
      hide WellFormed, NameOf;
      var b := InpNext();
      NameInTable(map_, le, inpCurr);
      if error {
        return -1;
      }
      mnemonic := map_.entries[map_.tables[le].cells[inpCurr]].mnemonic;
      return 0;
    }

    /** The string prefixes come before 66; the one that chose the slot is consumed. */
    method ChooseByPrefix(cells: seq<nat>) returns (idx: nat)
      requires Input() && Fixed() && |cells| == 4
      modifies this`pfxStr, this`pfxOpr
      ensures Spent(0) && idx == SseSlot(cells, old(Seen())) && Seen() == Consumed(old(Seen()), idx)
    {
      hide WellFormed, Input;
      var pfx := if pfxStr != 0 then pfxStr else if pfxOpr then 0x66 else 0;
      idx := (pfx % 16 + 1) / 2;
      if cells[idx] == 0 {
        idx := 0;
      }
      if idx != 0 && cells[idx] != 0 {
        pfxStr := 0;
        if pfx == 0x66 {
          pfxOpr := false;
        }
      }
    }

    method DecodeSsePfx() returns (rc: int)
      requires Blank() && Input() && Fixed() && ctr + Owed() + 25 <= SESSION && map_.tables[le].kind == OpcSse
      modifies this, sess
      ensures Spent(25) && (rc == -1 ==> error)
      ensures InMap(map_, 0x8000 + old(le))
      ensures !old(error) ==> Ended(Ext(Here(), 0x8000 + old(le), old(Seen())))
      decreases |map_.tables| - le, 0
    {
      hide WellFormed, Finish, Input, SseSlot, Consumed;
      ghost var here := 0x8000 + le;
      CellBounds(map_, le, 0);
      NextCell(map_, here, 0);
      var cells := map_.tables[le].cells;
      var idx := ChooseByPrefix(cells);
      NextCell(map_, here, idx);
      CellBounds(map_, le, idx);
      rc := DecodeExt(cells[idx]);
    }

    /** Every lookup index is in range, and table numbers rise. */
    method DecodeExt(ptr: nat) returns (rc: int)
      requires Blank() && Input() && Fixed() && ctr + Owed() + 25 <= SESSION && Follows(ptr)
      modifies this, sess
      ensures Spent(25) && (rc == -1 ==> error)
      ensures !old(error) ==> Ended(Ext(Here(), ptr, old(Seen())))
      decreases Rank(map_, ptr), 1
    {
      hide WellFormed, Mod, RegField, RexW, Finish, SlotOf, SseSlot, Consumed, Input;
      ghost var look := Seen();
      if !IsGroup(ptr) {
        rc := DecodeInsn(ptr);
        FinishInsn(Here(), ptr, look);
        return;
      }
      le := Target(ptr);
      var table := map_.tables[le];
      if table.kind == Opc3dnow {
        rc := Decode3dnow();
        return;
      }
      if table.kind == OpcSse {
        rc := DecodeSsePfx();
        return;
      }
      rc := DecodeBySlot();
    }

    /** On from a table whose slot the mode, the prefixes, the vendor or the ModRM byte choose. */
    method DecodeBySlot() returns (rc: int)
      requires Blank() && Input() && Fixed() && ctr + Owed() + 25 <= SESSION
      requires InMap(map_, 0x8000 + le) && Follows(0x8000 + le)
      requires map_.tables[le].kind != Opc3dnow && map_.tables[le].kind != OpcSse
      modifies this, sess
      ensures Spent(25) && (rc == -1 ==> error)
      ensures InMap(map_, 0x8000 + old(le))
      ensures !old(error) ==> Ended(Ext(Here(), 0x8000 + old(le), old(Seen())))
      decreases |map_.tables| - le, 0
    {
      hide WellFormed, Mod, RegField, RexW, Finish, SlotOf, SseSlot, Consumed, Input, Ext, ShapeOf;
      ghost var here := 0x8000 + le;
      ExtBySlot(Here(), here, Seen());
      var kind := map_.tables[le].kind;
      var idx := Slot(kind);
      NextCell(map_, here, idx);
      CellBounds(map_, le, idx);
      rc := DecodeExt(map_.tables[le].cells[idx]);
    }

    /** The slot to look at in a table of this kind. */
    method Slot(kind: Kind) returns (idx: nat)
      requires Input() && Fixed() && ctr + Owed() <= SESSION && map_.tables[le].kind == kind
      requires kind != OpcTable && kind != Opc3dnow && kind != OpcSse
      requires kind == OpcX87 ==> haveModrm && Mod(modrm) == 3
      modifies this`index, this`ctr, this`inpEnd, this`inpCurr, this`error, this`modrm, this`haveModrm, sess
      ensures Spent(0) && idx < Size(kind) == |map_.tables[le].cells|
      ensures Exact(if UsesModrm(kind) then Read(buf, old(Cur())) else old(Cur()), false)
      ensures idx == SlotOf(Here(), map_.tables[le], Seen())
      ensures kind == OpcMod && idx == 1 ==> haveModrm && Mod(modrm) == 3
    {
      hide WellFormed;
      CellBounds(map_, le, 0);
      match kind {
        case OpcMod =>
          var b := Modrm();
          idx := (Mod(b) + 1) / 4;
        case OpcMode => idx := if disMode != 64 then 0 else 1;
        case OpcOsize => idx := EffOprMode(disMode, RexW(pfxRex), pfxOpr) / 32;
        case OpcAsize => idx := EffAdrMode(disMode, pfxAdr) / 32;
        case OpcX87 =>
          var b := Modrm();
          idx := b - 0xC0;
        case OpcVendor =>
          if vendor == Any {
            idx := if map_.tables[le].cells[0] != 0 then 0 else 1;
          } else {
            idx := if vendor == Amd then 0 else 1;
          }
        case OpcRm =>
          var b := Modrm();
          idx := Rm(b);
        case OpcReg =>
          var b := Modrm();
          idx := RegField(b);
      }
    }

    method NextOpcodeByte()
      requires Input() && Fixed() && ctr < SESSION
      modifies this`index, this`ctr, this`inpEnd, this`inpCurr, this`error, sess
      ensures Spent(1) && Took(1)
      ensures !inpEnd ==>
        && inpCurr == ByteAt(buf, old(Cur()).pos)
        && Seen() == old(Seen()).(cur := old(Seen()).cur.(pos := old(Seen()).cur.pos + 1))
    {
      hide WellFormed;
      var b := InpNext();
    }

    /** The lookup of an opcode byte: it leads to a deeper opcode table and the next byte, or to
        the cell ptr. */
    method LookUpOpcode() returns (ptr: nat, more: bool)
      requires Input() && Fixed() && map_.tables[le].kind == OpcTable && ctr < SESSION && !haveModrm
      modifies this`index, this`ctr, this`inpEnd, this`inpCurr, this`error, this`primaryOpcode, this`le, sess
      ensures Spent(if more then 1 else 0)
      ensures more ==>
        && old(le) < le && map_.tables[le].kind == OpcTable && Deeper(map_, old(le), le)
        && (!inpEnd ==>
              && error == old(error)
              && Opc(Here(), le, inpCurr, Seen()) == Opc(Here(), old(le), old(inpCurr), old(Seen())))
      ensures !more ==>
        && Follows(ptr) && error == old(error) && Seen() == old(Seen())
        && Ext(Here(), ptr, Seen()) == Opc(Here(), old(le), old(inpCurr), Seen())
    {
      hide WellFormed, Ext, Opc, Mod, Input, Deeper;
      primaryOpcode := inpCurr;
      OpcodeCell(map_, le, inpCurr);
      OpcStep(Here(), le, inpCurr, Seen());
      ptr, more := map_.tables[le].cells[inpCurr], false;
      if IsGroup(ptr) {
        le := Target(ptr);
        if map_.tables[le].kind == OpcTable {
          more := true;
          NextOpcodeByte();
        }
      }
    }

    /** At most two further opcode bytes. */
    method DecodeOpcode() returns (rc: int)
      requires Blank() && Input() && Fixed() && map_.tables[le].kind == OpcTable && |map_.level| == |map_.tables|
      requires map_.level[le] <= 2 && ctr + Owed() + 27 - map_.level[le] <= SESSION && !haveModrm
      modifies this, sess
      ensures Spent(27 - old(map_.level[le])) && (rc == -1 ==> error)
      ensures !old(error) ==> Ended(Opc(Here(), old(le), old(inpCurr), old(Seen())))
      decreases |map_.tables| - le
    {
      hide WellFormed, Finish, Ext, Opc, Input, Mod;
      if error {
        return 1;
      }
      var ptr, more := LookUpOpcode();
      if more {
        rc := DecodeOpcode();
      } else {
        rc := DecodeExt(ptr);
      }
    }

    // ----- one instruction

    /** The prefix state of a fresh instruction. */
    predicate Cleared()
      reads this`error, this`haveModrm, this`pfxOpr, this`pfxAdr, this`pfxLock, this`pfxStr, this`pfxRex, this`pfxSeg
    {
      !error && !haveModrm && !pfxOpr && !pfxAdr && !pfxLock && pfxStr == 0 && pfxRex == 0 && pfxSeg == 0
    }

    /** The prefix flags are those of the prefix bytes p, REX aside. */
    predicate Flags(p: seq<Byte>)
      reads this`pfxOpr, this`pfxAdr, this`pfxLock, this`pfxStr, this`pfxSeg
    {
      && (pfxOpr <==> 0x66 in p) && (pfxAdr <==> 0x67 in p) && (pfxLock <==> 0xF0 in p)
      && pfxStr == LastString(p) && pfxSeg == LastSegment(p)
    }

    /** The prefixes p stand in the input from start on. */
    ghost predicate PrefixRun(start: nat, p: seq<Byte>) {
      start + |p| <= |buf| && p == buf[start..start + |p|] && Prefixes(disMode, p)
    }

    /** One prefix byte. */
    method SetPrefix(curr: Byte, ghost p: seq<Byte>, ghost start: nat)
      requires Flags(p) && Fixed() && PrefixRun(start, p) && IsPrefix(disMode, curr)
      requires start + |p| < |buf| && curr == buf[start + |p|]
      modifies this`pfxSeg, this`pfxAdr, this`pfxLock, this`pfxOpr, this`pfxStr
      ensures Flags(p + [curr]) && Fixed() && PrefixRun(start, p + [curr]) && LastOf(p + [curr]) == curr
    {
      hide WellFormed, LastString, LastSegment, Prefixes, IsPrefix, LastOf;
      LastStringAppend(p, curr);
      LastSegmentAppend(p, curr);
      OneMorePrefix(disMode, p, curr);
      SliceGrows(buf, start, start + |p|, p);
      match curr {
        case 0x2E => pfxSeg := 2;
        case 0x36 => pfxSeg := 3;
        case 0x3E => pfxSeg := 4;
        case 0x26 => pfxSeg := 1;
        case 0x64 => pfxSeg := 5;
        case 0x65 => pfxSeg := 6;
        case 0x67 => pfxAdr := true;
        case 0xF0 => pfxLock := true;
        case 0x66 => pfxOpr := true;
        case 0xF2 => pfxStr := 0xF2;
        case 0xF3 => pfxStr := 0xF3;
        case _ =>
      }
    }

    /** Prefixes, and the first opcode byte behind them: at most 14 bytes, or an error. The flags
        say which prefixes there were; of F2 and F3 the later one counts, and a REX prefix only
        if it is the last prefix. */
    method DecodePrefixes() returns (rc: int, ghost p: seq<Byte>)
      requires Input() && Fixed() && ctr == 0 && !inpEnd && Cleared()
      modifies this`index, this`ctr, this`inpEnd, this`inpCurr, this`error, this`pfxSeg, this`pfxAdr, this`pfxLock,
        this`pfxOpr, this`pfxStr, this`pfxRex, sess
      ensures Passed(15) && le == old(le)
      ensures rc == (if error then 1 else 0) && (!error ==> 1 <= ctr <= 14 && inpCurr == buf[index - 1])
      ensures (ctr == 0 ==> inpEnd) && haveModrm == old(haveModrm)
      ensures !inpEnd ==> (error <==> PrefixCount(disMode, buf, old(index)) >= MAX_INSN_LENGTH - 1)
      ensures if error then !inpEnd ==> ctr == MAX_INSN_LENGTH else |p| == PrefixCount(disMode, buf, old(index))
      ensures !error ==> p == buf[old(index)..index - 1] && Prefixes(disMode, p) && !IsPrefix(disMode, buf[index - 1])
      ensures !error ==> Flags(p) && pfxRex == (if IsRex(disMode, LastOf(p)) then LastOf(p) else 0)
    {
      hide WellFormed, Flags, Prefixes, IsPrefix, IsRex, LastOf, PrefixCount, Cleared, Input;
      StartInRange();
      var last;
      rc, last, p := ReadPrefixes();
      if rc == 0 || !inpEnd {
        CountPrefixes(disMode, buf, old(index), p);
      }
      if rc == 0 && IsRex(disMode, last) {
        pfxRex := last;
      }
    }

    /** One byte behind the prefixes p: an error, a prefix more, or the opcode byte. */
    method PrefixStep(ghost start: nat, ghost p: seq<Byte>) returns (curr: Byte, done: bool, ghost p': seq<Byte>)
      requires Input() && Fixed() && Begin() == start && index == start + |p| && ctr < MAX_INSN_LENGTH
      requires !error && !inpEnd && PrefixRun(start, p) && Flags(p)
      modifies this`index, this`ctr, this`inpEnd, this`inpCurr, this`error, this`pfxSeg, this`pfxAdr, this`pfxLock,
        this`pfxOpr, this`pfxStr, sess
      ensures Input() && Fixed() && Begin() == start && PrefixRun(start, p') && (inpEnd ==> error)
      ensures ctr == old(ctr) + if inpEnd then 0 else 1
      ensures error ==> p' == p && done && (!inpEnd ==> ctr == MAX_INSN_LENGTH)
      ensures !error ==>
        && ctr < MAX_INSN_LENGTH && index == start + |p| + 1 <= |buf| && inpCurr == curr == buf[index - 1] && Flags(p')
        && if done then p' == p && !IsPrefix(disMode, curr) else p' == p + [curr] && LastOf(p') == curr
    {
      hide WellFormed, Flags, PrefixRun, IsPrefix, LastOf, Input;
      curr := InpNext();
      done, p' := true, p;
      if error {
        return;
      }
      if ctr == MAX_INSN_LENGTH {
        error := true;
        return;
      }
      if IsPrefix(disMode, curr) {
        SetPrefix(curr, p, start);
        done, p' := false, p + [curr];
      }
    }

    /** The loop, which ends with the byte that is no prefix, and the one before it. */
    method ReadPrefixes() returns (rc: int, last: Byte, ghost p: seq<Byte>)
      requires Input() && Fixed() && ctr == 0 && !inpEnd && Cleared()
      modifies this`index, this`ctr, this`inpEnd, this`inpCurr, this`error, this`pfxSeg, this`pfxAdr, this`pfxLock,
        this`pfxOpr, this`pfxStr, sess
      ensures Passed(15) && rc == (if error then 1 else 0) && (ctr == 0 ==> inpEnd)
      ensures PrefixRun(old(index), p)
      ensures if error then !inpEnd ==> ctr == MAX_INSN_LENGTH == |p| + 1
              else
                && index == old(index) + |p| + 1 <= |buf| && ctr == |p| + 1 <= 14 && inpCurr == buf[index - 1]
                && !IsPrefix(disMode, buf[index - 1]) && Flags(p) && last == LastOf(p)
    {
      hide WellFormed, Flags, PrefixRun, IsPrefix, LastOf, Cleared, Input;
      StartInRange();
      NoPrefixYet();
      NoLast(disMode);
      var done := false;
      var curr: Byte := 0;
      ghost var start := index;
      last, p := 0, [];
      while !done
        invariant Input() && Fixed() && Begin() == start && PrefixRun(start, p)
        invariant (inpEnd ==> error) && (error ==> done)
        invariant !done ==> ctr < MAX_INSN_LENGTH && index == start + |p| && Flags(p) && curr == LastOf(p)
        invariant error && !inpEnd ==> ctr == MAX_INSN_LENGTH == |p| + 1
        invariant error && ctr == 0 ==> inpEnd
        invariant ctr <= MAX_INSN_LENGTH
        invariant done && !error ==>
          && index == start + |p| + 1 <= |buf| && ctr == |p| + 1 < MAX_INSN_LENGTH && inpCurr == buf[index - 1]
          && !IsPrefix(disMode, inpCurr) && Flags(p) && last == LastOf(p)
        decreases MAX_INSN_LENGTH - ctr, !done
      {
        last := curr;
        curr, done, p := PrefixStep(start, p);
      }
      rc := if error then 1 else 0;
    }

    lemma StartInRange()
      requires Input() && Cleared()
      ensures ctr <= index <= |buf| && !error && !haveModrm && pfxRex == 0
    {
    }

    lemma NoPrefixYet()
      requires Input() && Cleared()
      ensures Flags([]) && PrefixRun(index, [])
    {
    }

    method ClearPrefixes()
      modifies this`pfxSeg, this`pfxOpr, this`pfxAdr, this`pfxLock, this`pfxRep, this`pfxRepe, this`pfxRepne,
        this`pfxRex, this`pfxStr
      ensures !pfxOpr && !pfxAdr && !pfxLock && pfxStr == 0 && pfxRex == 0 && pfxSeg == 0
      ensures !pfxRep && !pfxRepe && !pfxRepne
    {
      pfxSeg, pfxOpr, pfxAdr, pfxLock := 0, false, false, false;
      pfxRep, pfxRepe, pfxRepne, pfxRex, pfxStr := false, false, false, 0, 0;
    }

    method ClearInsn()
      requires Fixed()
      modifies this`error, this`pfxSeg, this`pfxOpr, this`pfxAdr, this`pfxLock, this`pfxRep, this`pfxRepe,
        this`pfxRepne, this`pfxRex, this`pfxStr, this`mnemonic, this`haveModrm, this`brFar, this`operand
      ensures Fixed() && Cleared() && Blank()
    {
      hide WellFormed;
      ClearPrefixes();
      error, mnemonic, haveModrm, brFar := false, Mother(0), false, false;
      operand := [NO_OPERAND, NO_OPERAND, NO_OPERAND];
    }

    /** inp_start and clear_insn. */
    method BeginInsn()
      requires Input() && Fixed()
      modifies this`error, this`pfxSeg, this`pfxOpr, this`pfxAdr, this`pfxLock, this`pfxRep, this`pfxRepe,
        this`pfxRepne, this`pfxRex, this`pfxStr, this`mnemonic, this`haveModrm, this`brFar, this`operand,
        this`ctr, this`le
      ensures Input() && Fixed() && ctr == 0 && Cleared() && Blank() && le == 0 && map_.tables[0].kind == OpcTable
    {
      hide WellFormed;
      LevelBounds(map_);
      ctr := 0;
      assert sess[..0] == buf[index..index];
      ClearInsn();
      le := 0;
    }

    /** Behind the prefixes, the lookups start as they should. */
    lemma PrefixesSeen(start: nat, p: seq<Byte>)
      requires start + |p| < |buf| && p == buf[start..start + |p|] && Flags(p) && !haveModrm
      requires index == start + |p| + 1 && pfxRex == if IsRex(disMode, LastOf(p)) then LastOf(p) else 0
      ensures Seen() == FirstLook(Here(), start, |p|) && ByteAt(buf, start + |p|) == buf[index - 1]
    {
      hide IsRex, LastOf, LastString;
    }

    /** Bytes, error, entry and instruction are those at start. */
    predicate Told(start: nat)
      requires WellFormed(map_) && start <= |buf|
      reads this`ctr, this`error, this`entry, this`mnemonic, this`operand, this`pfxRep, this`pfxRepe, this`pfxRepne,
        this`brFar, this`pfxSeg, this`pfxLock
    {
      var o := Decoding(Here(), start);
      && ctr == o.len && (error <==> o.bad) && (!error ==> entry == o.entry && Made() == Untrimmed(Here(), start))
    }

    /** The bytes of one instruction, as Decoding says. They never exceed 42: 14 for prefixes and
        opcode, two more opcode bytes, ModRM, three operands and a 3dnow opcode. */
    method DecodeBytes()
      requires Blank() && Input() && Fixed() && ctr == 0 && !inpEnd && Cleared()
      requires le == 0 && map_.tables[0].kind == OpcTable
      modifies this, sess
      ensures Input() && Fixed() && ctr <= MOST && Begin() == old(Begin())
      ensures pc == old(pc) && insnOffset == old(insnOffset) && (ctr == 0 ==> inpEnd)
      ensures !inpEnd ==> Told(old(index))
    {
      hide WellFormed, Finish, Opc, PrefixCount, FirstLook, Decoding, Input, Cleared, ShapeOf, LastSegment, Lookup,
        Untrimmed;
      LevelBounds(map_);
      var rc := BeginDecoding();
      if rc != -1 {
        if error {
          rc := 1;
        } else {
          rc := DecodeOpcode();
        }
      }
      error := rc == -1 || error;
    }

    /** The prefixes, and what they mean for the rest. */
    method BeginDecoding() returns (rc: int)
      requires Input() && Fixed() && ctr == 0 && !inpEnd && Cleared()
      requires le == 0 && map_.tables[0].kind == OpcTable
      modifies this`index, this`ctr, this`inpEnd, this`inpCurr, this`error, this`pfxSeg, this`pfxAdr, this`pfxLock,
        this`pfxOpr, this`pfxStr, this`pfxRex, sess
      ensures Passed(15) && rc == (if error then 1 else 0) && (ctr == 0 ==> inpEnd) && !haveModrm
      ensures !error ==> ctr <= 14
      ensures !inpEnd && error ==>
        ctr == MAX_INSN_LENGTH && Decoding(Here(), old(index)) == Outcome(MAX_INSN_LENGTH, true, 0)
      ensures !error ==>
        var f := Opc(Here(), 0, inpCurr, Seen());
        var (c, bad) := Finish(Here(), f);
        && Decoding(Here(), old(index)) == Outcome(WithLast(f, c).pos - old(index), bad, if bad then 0 else f.entry)
        && Untrimmed(Here(), old(index)) == Instruction(ShapeOf(Here(), f), pfxSeg, pfxLock)
    {
      hide WellFormed, Finish, Opc, PrefixCount, Prefixes, IsPrefix, IsRex, LastOf, FirstLook, Decoding, Untrimmed,
        ShapeOf, LastSegment, LastString;
      ghost var p;
      rc, p := DecodePrefixes();
      if error {
        TooManyPrefixes(Here(), old(index));
      } else {
        PrefixesSeen(old(index), p);
        FewPrefixes(Here(), old(index), p);
      }
    }

    /** Errors turn the bytes into an invalid instruction; the program counter moves on. */
    method EndInsn()
      requires Fixed()
      modifies this`error, this`pfxSeg, this`pfxOpr, this`pfxAdr, this`pfxLock, this`pfxRep, this`pfxRepe,
        this`pfxRepne, this`pfxRex, this`pfxStr, this`mnemonic, this`haveModrm, this`brFar, this`operand,
        this`entry, this`insnOffset, this`pc
      ensures Fixed() && insnOffset == old(pc) && pc == (old(pc) + ctr) % TWO64
      ensures entry == if old(error) then 0 else old(entry)
      ensures |map_.entries| > 0
      ensures Made() == if old(error) then Invalid(map_) else Trimmed(map_.entries[entry], old(Made()))
    {
      hide WellFormed;
      LevelBounds(map_);
      if error {
        ClearInsn();
        entry := 0;
        mnemonic := map_.entries[0].mnemonic;
      }
      if !map_.entries[entry].seg && operand[0].kind != OpMem && operand[1].kind != OpMem {
        pfxSeg := 0;
      }
      insnOffset := pc;
      pc := (pc + ctr) % 0x1_0000_0000_0000_0000;
    }

    /** ud_decode: the instruction at the program counter. */
    method DecodeOne() returns (len: nat)
      requires Input() && Fixed() && !inpEnd
      modifies this, sess
      ensures Input() && Fixed() && len == ctr <= MOST && index == old(index) + ctr
      ensures insnOffset == old(pc) && pc == (old(pc) + len) % TWO64
      ensures len == 0 ==> inpEnd
      ensures !inpEnd ==> var o := Decoding(Here(), old(index)); len == o.len && entry == o.entry
      ensures !inpEnd ==> Made() == InsnAt(Here(), old(index))
    {
      hide WellFormed, Decoding, Untrimmed, Invalid, Trimmed;
      BeginInsn();
      DecodingEntry(Here(), index);
      DecodeBytes();
      EndInsn();
      len := ctr;
    }

    /** ud_disassemble: nothing once the input has ended, otherwise one instruction. */
    method Disassemble() returns (len: nat)
      requires Input() && Fixed()
      modifies this, sess
      ensures Input() && Fixed() && len <= MOST
      ensures old(inpEnd) ==> len == 0 && unchanged(this) && unchanged(sess)
      ensures !old(inpEnd) ==>
        && len == ctr && index == old(index) + len && insnOffset == old(pc) && pc == (old(pc) + len) % TWO64
        && (len == 0 ==> inpEnd)
        && (!inpEnd ==>
              && len == Decoding(Here(), old(index)).len && entry == Decoding(Here(), old(index)).entry
              && Made() == InsnAt(Here(), old(index)))
      ensures index <= |buf| && (inpEnd ==> index == |buf|)
    {
      hide WellFormed, Decoding, InsnAt;
      if inpEnd {
        return 0;
      }
      len := DecodeOne();
    }

    /** ud_insn_ptr and ud_insn_len: the bytes of the last instruction, out of the session buffer
        or out of the input buffer. */
    method InsnBytes() returns (b: seq<Byte>)
      requires Input()
      ensures b == buf[index - ctr..index]
    {
      if viaHook {
        b := sess[..ctr];
      } else {
        b := buf[index - ctr..index];
      }
    }

    /** ud_init, ud_set_mode, ud_set_vendor, ud_set_pc and the setting of the input. */
    constructor (m: Map, data: seq<Byte>, hook: bool, mode: nat, v: Vendor, origin: nat)
      requires WellFormed(m) && origin < TWO64
      ensures Input() && Fixed() && fresh(sess) && index == 0 && ctr == 0 && !inpEnd && pc == origin
      ensures Here() == Setup(m, data, if mode == 32 || mode == 64 then mode else 16, v) && viaHook == hook
    {
      map_, buf, viaHook, vendor, pc := m, data, hook, v, origin;
      disMode := if mode == 32 || mode == 64 then mode else 16;
      sess := new Byte[SESSION](_ => 0);
      index, inpCurr, ctr, inpEnd, insnOffset, error, le, entry := 0, 0, 0, false, 0, false, 0, 0;
      mnemonic, primaryOpcode, haveModrm, modrm, brFar := Minvalid, 0, false, 0, false;
      pfxSeg, pfxOpr, pfxAdr, pfxLock, pfxStr, pfxRex := 0, false, false, false, 0, 0;
      pfxRep, pfxRepe, pfxRepne, oprMode, adrMode := false, false, false, 0, 0;
      operand := [NO_OPERAND, NO_OPERAND, NO_OPERAND];
    }
  }

  /** An instruction as the caller sees it: ud_insn_off and the bytes at ud_insn_ptr. */
  datatype Insn = Insn(offset: nat, code: seq<Byte>)

  function CodeOf(list: seq<Insn>): seq<Byte> {
    if list == [] then [] else CodeOf(list[..|list| - 1]) + list[|list| - 1].code
  }

  /** The n bytes at p of the input are one instruction; where the input ends, perhaps a part of
      one. */
  ghost predicate Whole(s: Setup, p: nat, n: nat) {
    WellFormed(s.map_) && p + n < |s.buf| ==> Decoding(s, p).len == n
  }

  /** Each instruction starts where the one before it ends, and is whole. */
  ghost predicate Contiguous(list: seq<Insn>, origin: nat, s: Setup) {
    list != [] ==>
      var init, last := list[..|list| - 1], list[|list| - 1];
      && Contiguous(init, origin, s) && last.offset == (origin + |CodeOf(init)|) % TWO64
      && 1 <= |last.code| <= MOST && Whole(s, |CodeOf(init)|, |last.code|)
  }

  /** A whole run of ud_disassemble, as install_hook and the udcli program make it: the input is
      split into instructions with nothing lost between them. */
  method DisassembleAll(u: Ud) returns (list: seq<Insn>)
    requires u.Input() && u.Fixed() && u.index == 0 && !u.inpEnd && u.pc < TWO64
    modifies u, u.sess
    ensures CodeOf(list) == u.buf && Contiguous(list, old(u.pc), u.Here()) && u.inpEnd
  {
    hide WellFormed, CodeOf, Contiguous, Decoding, Whole, InsnAt;
    list := [];
    ghost var origin, cut := u.pc, 0;
    NothingYet(u.Here(), origin);
    var len := u.Disassemble();
    WholeInsn(u.Here(), 0, len, u.inpEnd);
    while len > 0
      invariant u.Input() && u.Fixed() && cut + len == u.index <= |u.buf| && 0 <= len <= MOST
      invariant len > 0 ==> len == u.ctr && u.insnOffset == (origin + cut) % TWO64 && Whole(u.Here(), cut, len)
      invariant len == 0 ==> u.inpEnd && u.index == |u.buf|
      invariant CodeOf(list) == u.buf[..cut] && Contiguous(list, origin, u.Here())
      invariant u.pc == (origin + u.index) % TWO64
      decreases |u.buf| - u.index, len
    {
      var code := u.InsnBytes();
      Appended(list, u.insnOffset, code, origin, u.Here());
      assert u.buf[..cut] + u.buf[cut..u.index] == u.buf[..u.index];
      list := list + [Insn(u.insnOffset, code)];
      cut := u.index;
      len := u.Disassemble();
      WholeInsn(u.Here(), cut, len, u.inpEnd);
      PcAdds(origin, cut, len);
    }
    assert u.buf[..cut] == u.buf;
  }

  lemma WholeInsn(s: Setup, p: nat, len: nat, end: bool)
    requires WellFormed(s.map_) && p <= |s.buf|
    requires if end then p + len == |s.buf| else len == Decoding(s, p).len
    ensures Whole(s, p, len)
  {
  }

  lemma NothingYet(s: Setup, origin: nat)
    ensures CodeOf([]) == s.buf[..0] && Contiguous([], origin, s)
  {
  }

  lemma PcAdds(origin: nat, p: nat, len: nat)
    ensures ((origin + p) % TWO64 + len) % TWO64 == (origin + (p + len)) % TWO64
  {
    var q, r := (origin + p) / 0x1_0000_0000_0000_0000, (origin + p) % 0x1_0000_0000_0000_0000;
    assert origin + (p + len) == q * 0x1_0000_0000_0000_0000 + (r + len);
  }

  lemma Appended(list: seq<Insn>, offset: nat, code: seq<Byte>, origin: nat, s: Setup)
    requires Contiguous(list, origin, s) && offset == (origin + |CodeOf(list)|) % TWO64
    requires 1 <= |code| <= MOST && Whole(s, |CodeOf(list)|, |code|)
    ensures CodeOf(list + [Insn(offset, code)]) == CodeOf(list) + code
    ensures Contiguous(list + [Insn(offset, code)], origin, s)
  {
    hide Whole;
    assert (list + [Insn(offset, code)])[..|list|] == list;
  }

  /** The bytes from p on, SIB byte and displacement, are those of the addressing form. */
  lemma TailRead(adr: nat, buf: seq<Byte>, p: nat, at: nat, end: nat, modrm: nat, rex: nat, sib: nat)
    requires p <= at <= end <= |buf| && at == p + (if HasSib(adr, modrm) then 1 else 0)
    requires HasSib(adr, modrm) ==> sib == buf[p]
    requires end == at + Offset(adr, modrm, rex, sib) / 8
    ensures end - p == TailLength(adr, modrm, rex, ByteAt(buf, p))
  {
    hide HasSib, Offset;
    if !HasSib(adr, modrm) {
      SibUnused(adr, modrm, rex, sib, ByteAt(buf, p));
    }
  }

  /** And mem is what they decode to. */
  lemma FormRead(adr: nat, buf: seq<Byte>, p: nat, at: nat, end: nat, modrm: nat, rex: nat, sib: nat, mem: Mem)
    requires p <= at <= end <= |buf| && at == p + (if HasSib(adr, modrm) then 1 else 0)
    requires sib == if HasSib(adr, modrm) then buf[p] else 0
    requires end == at + Offset(adr, modrm, rex, sib) / 8
    requires var o := Offset(adr, modrm, rex, sib);
             var m := MemOf(adr, modrm, rex, sib);
             mem == if o == 0 then m.(lval := 0) else m.(lval := Decode(buf[at..end]))
    ensures end - p == TailLength(adr, modrm, rex, ByteAt(buf, p))
    ensures mem == Decoded(adr, modrm, rex, buf[p..end])
  {
    hide HasSib, MemOf, Offset, Decode;
    TailRead(adr, buf, p, at, end, modrm, rex, sib);
    NothingDecoded();
    var tail := buf[p..end];
    assert (if HasSib(adr, modrm) then tail[1..] else tail) == buf[at..end];
    assert Offset(adr, modrm, rex, sib) == 0 ==> buf[at..end] == [];
  }

  /** Opcode table j lies deeper than i. */
  predicate Deeper(m: Map, i: nat, j: nat) {
    i < |m.level| == |m.tables| && j < |m.tables| && m.level[i] < m.level[j] <= 2
  }

  /** What an opcode byte leads to: an instruction, a deeper opcode table, or a table that is
      neither an opcode table nor one for x87. */
  lemma OpcodeCell(m: Map, le: nat, b: Byte)
    requires WellFormed(m) && le < |m.tables| && m.tables[le].kind == OpcTable
    ensures |m.level| == |m.tables| && |m.tables[le].cells| == 256
    ensures var c := m.tables[le].cells[b];
            && InMap(m, c)
            && (IsGroup(c) ==>
                  && le < Target(c) && m.tables[Target(c)].kind != OpcX87
                  && (m.tables[Target(c)].kind == OpcTable ==> Deeper(m, le, Target(c))))
  {
    CellBounds(m, le, b);
    LevelBounds(m);
  }

  /** The ModRM byte may be read before or with the operand. */
  lemma RmPosition(buf: seq<Byte>, md: Modes, o: EntryOperand, c: Cursor)
    requires ByModrm(o.code)
    ensures AfterOperand(buf, md, o, c) == AfterRm(buf, md, c) == AfterRm(buf, md, Read(buf, c))
    ensures AfterRm(buf, md, c).modrm == Read(buf, c).modrm
  {
    hide RmTail;
  }

  /** Operands whose ModRM byte must have mod 3, or must not. */
  predicate Checked(c: OpCode) { c.OP_F? || c.OP_M? || c.OP_N? || c.OP_U? || c.OP_RM? }

  /** The operand is the same if the ModRM byte has been read before. */
  lemma ReadTwice(buf: seq<Byte>, md: Modes, c: Cursor)
    ensures forall cls, size :: RmOperand(buf, md, cls, size, Read(buf, c)) == RmOperand(buf, md, cls, size, c)
  {
  }

  lemma RmBad(md: Modes, o: EntryOperand, modrm: nat)
    requires ByModrm(o.code)
    ensures BadOperand(md, o.code, modrm) <==>
            if o.code.OP_F? || o.code.OP_M? then Mod(modrm) == 3
            else (o.code.OP_N? || o.code.OP_U? || o.code.OP_RM?) && Mod(modrm) != 3
    ensures SizeOf(md, o, modrm) ==
            Resolve(md, if o.code.OP_MR? || o.code.OP_MU? then MxSize(Mod(modrm), o.size) else o.size)
  {
  }

  lemma RmIs(buf: seq<Byte>, md: Modes, o: EntryOperand, c: Cursor)
    requires ByModrm(o.code)
    ensures !BadOperand(md, o.code, Read(buf, c).modrm) ==>
              OperandOf(buf, md, o, c) == RmOperand(buf, md, ClassOf(o.code), SizeOf(md, o, Read(buf, c).modrm), c)
  {
    hide RegOf, Mod, Rm, RmTail, Slice, RegField, RexB, RexR, Decoded;
  }

  lemma ConstantIs(buf: seq<Byte>, md: Modes, o: EntryOperand, c: Cursor)
    ensures o.code.OP_Seg? ==> OperandOf(buf, md, o, c) == Operand(OpReg, 16, NO_MEM.(base := Other(5, o.code.n)))
    ensures o.code.OP_ST? ==> OperandOf(buf, md, o, c) == Operand(OpReg, 80, NO_MEM.(base := Other(6, o.code.n)))
    ensures o.code.OP_I1? ==> OperandOf(buf, md, o, c) == Operand(OpConst, 0, NO_MEM.(lval := 1))
    ensures o.code.OP_I3? ==> OperandOf(buf, md, o, c) == Operand(OpConst, 0, NO_MEM.(lval := 3))
  {
    hide RmTail, RegOf, Decoded, Slice;
  }

  /** Far pointers, immediates and addresses, from the bytes taken. */
  lemma OtherIs(buf: seq<Byte>, md: Modes, o: EntryOperand, c: Cursor, to: nat, x: Operand)
    requires !ByModrm(o.code) && !ByReg(o.code) && !Implied(o.code)
    requires c.pos <= to <= |buf| && AfterOperand(buf, md, o, c).pos == to
    requires x.kind == KindOf(o.code, c.modrm) && x.size == SizeGiven(md, o, c.modrm)
    requires x.mem == NO_MEM.(offset := if o.code.OP_O? then 8 * ByteWidth(md.adr) else 0,
                              lval := ValueOf(o.code, buf[c.pos..to]))
    ensures x == OperandOf(buf, md, o, c)
  {
    hide SizeGiven, ValueOf, OperandBytes, Slice;
    SliceIs(buf, c.pos, to);
  }

  lemma PointerValue(buf: seq<Byte>, from: nat, to: nat)
    requires from + 2 <= to <= |buf|
    ensures ValueOf(OP_A, buf[from..to]) == Decode(buf[from..to - 2]) + 0x1_0000_0000 * Decode(buf[to - 2..to])
  {
    hide Decode;
    var b := buf[from..to];
    assert b[..|b| - 2] == buf[from..to - 2] && b[|b| - 2..] == buf[to - 2..to];
  }

  lemma OpcStep(s: Setup, le: nat, b: Byte, look: Look)
    requires WellFormed(s.map_) && le < |s.map_.tables| && s.map_.tables[le].kind == OpcTable && Strings(look)
    ensures |s.map_.tables[le].cells| == 256
    ensures var c, at := s.map_.tables[le].cells[b], look.cur.pos;
            InMap(s.map_, c) &&
            if IsGroup(c) && s.map_.tables[Target(c)].kind == OpcTable then
              Opc(s, le, b, look) == Opc(s, Target(c), ByteAt(s.buf, at), look.(cur := look.cur.(pos := at + 1)))
            else Opc(s, le, b, look) == Ext(s, c, look)
  {
    CellBounds(s.map_, le, b);
  }

  lemma ExtBySlot(s: Setup, ptr: nat, look: Look)
    requires WellFormed(s.map_) && IsGroup(ptr) && InMap(s.map_, ptr) && Strings(look)
    requires var k := s.map_.tables[Target(ptr)].kind; k != OpcTable && k != Opc3dnow && k != OpcSse
    ensures var t := s.map_.tables[Target(ptr)];
            var look' := if UsesModrm(t.kind) then look.(cur := Read(s.buf, look.cur)) else look;
            && |t.cells| == Size(t.kind) && InMap(s.map_, t.cells[SlotOf(s, t, look')])
            && Ext(s, ptr, look) == Ext(s, t.cells[SlotOf(s, t, look')], look')
  {
    hide WellFormed, SlotOf;
    NextCell(s.map_, ptr, 0);
    var t := s.map_.tables[Target(ptr)];
    var look' := if UsesModrm(t.kind) then look.(cur := Read(s.buf, look.cur)) else look;
    NextCell(s.map_, ptr, SlotOf(s, t, look'));
  }

  lemma ImpliedStays(buf: seq<Byte>, md: Modes, o: EntryOperand, c: Cursor)
    requires Implied(o.code)
    ensures AfterOperand(buf, md, o, c) == c
  {
  }

  lemma DecodingEntry(s: Setup, start: nat)
    requires WellFormed(s.map_) && start <= |s.buf|
    ensures Decoding(s, start).bad ==> Decoding(s, start).entry == 0
  {
    hide WellFormed, Finish;
  }

  lemma TooManyPrefixes(s: Setup, start: nat)
    requires WellFormed(s.map_) && start <= |s.buf|
    ensures PrefixCount(s.dis, s.buf, start) >= MAX_INSN_LENGTH - 1 ==>
              Decoding(s, start) == Outcome(MAX_INSN_LENGTH, true, 0)
  {
  }

  lemma FewPrefixes(s: Setup, start: nat, p: seq<Byte>)
    requires WellFormed(s.map_) && start + |p| <= |s.buf| && p == s.buf[start..start + |p|]
    requires |p| == PrefixCount(s.dis, s.buf, start) < MAX_INSN_LENGTH - 1
    ensures |s.map_.tables| > 0 && s.map_.tables[0].kind == OpcTable && Strings(FirstLook(s, start, |p|))
    ensures var f := Opc(s, 0, ByteAt(s.buf, start + |p|), FirstLook(s, start, |p|));
            var (c, bad) := Finish(s, f);
            && Decoding(s, start) == Outcome(WithLast(f, c).pos - start, bad, if bad then 0 else f.entry)
            && Untrimmed(s, start) == Instruction(ShapeOf(s, f), LastSegment(p), 0xF0 in p)
  {
    hide Finish, Opc, WellFormed, PrefixCount, LastString, LastOf, IsRex, WithLast, ByteAt, ShapeOf, LastSegment;
    LevelBounds(s.map_);
    StringOfPrefixes(s.buf[start..start + |p|]);
  }

  lemma FinishEntry(s: Setup, ptr: nat, look: Look)
    requires ptr < |s.map_.entries|
    ensures var e := s.map_.entries[ptr];
            var md := ModesOf(s.dis, e, look);
            var (c, bad) := AfterOperands(s.buf, md, e, look.cur);
            && Finish(s, Found(ptr, look, -1)) == (if s.dis == 64 && e.inv64 then (look.cur, true)
                                                   else (c, bad || (e.mnemonic == Mswapgs && s.dis != 64)))
            && ShapeOf(s, Found(ptr, look, -1)) ==
               Renamed(Shape(e.mnemonic, OperandsOf(s.buf, md, e, look.cur), look.str == 0xF3 && e.str,
                             look.str == 0xF3 && !e.str, look.str == 0xF2,
                             e.op1.code.OP_F? || e.op2.code.OP_F? || e.op3.code.OP_F?))
  {
    hide AfterOperands, ModesOf, OperandsOf, Renamed;
  }

  lemma FinishInsn(s: Setup, ptr: nat, look: Look)
    requires WellFormed(s.map_) && !IsGroup(ptr) && InMap(s.map_, ptr) && Strings(look)
    ensures Ext(s, ptr, look) == Found(ptr, look, -1)
    ensures WithLast(Found(ptr, look, -1), Finish(s, Found(ptr, look, -1)).0) == Finish(s, Found(ptr, look, -1)).0
  {
  }

  /** The last byte of a 3dnow instruction makes no other difference. */
  lemma FinishLast(s: Setup, ptr: nat, look: Look, le: nat)
    requires ptr < |s.map_.entries|
    ensures Finish(s, Found(ptr, look, le)) == Finish(s, Found(ptr, look, -1))
    ensures var name := NameOf(s.map_, le, ByteAt(s.buf, Finish(s, Found(ptr, look, -1)).0.pos));
            ShapeOf(s, Found(ptr, look, le)) == ShapeOf(s, Found(ptr, look, -1)).(mnemonic := name)
  {
    hide EntryShape, NameOf;
  }

  lemma NoTail(md: Modes, modrm: nat, sib: nat)
    requires Mod(modrm) == 3
    ensures RmTail(md, modrm, sib) == 0
  {
  }

  lemma FieldOfNumber(high: nat, b: Byte)
    ensures (8 * high + RegField(b)) % 8 == RegField(b)
  {
  }

  /** Every other address size is taken for 16 bits. */
  lemma OtherIs16(adr: nat, modrm: nat, rex: nat, x: nat)
    ensures adr != 64 && adr != 32 ==>
      && TailLength(adr, modrm, rex, x) == TailLength(16, modrm, rex, x)
      && forall tail :: Decoded(adr, modrm, rex, tail) == Decoded(16, modrm, rex, tail)
  {
  }
}
