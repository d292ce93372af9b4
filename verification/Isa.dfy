/** The instructions a hooked prologue and its trampoline consist of, and the machine that runs
    them. What an instruction does to registers and data is a parameter of the machine. */
module Isa {
  import opened Bytes

  /** RipRel is pre, a 32-bit displacement, then post (an immediate): its operand is the address
      of the next instruction plus the displacement. */
  datatype Insn =
    | Plain(code: seq<Byte>)
    | RipRel(pre: seq<Byte>, disp: int, post: seq<Byte>)
    | JmpRel(disp: int)

  const E9: Byte := 0xE9

  /** jmp [rip+d] */
  const INDIRECT: seq<Byte> := [0xFF, 0x25]

  function JmpThrough(d: int): Insn { RipRel(INDIRECT, d, []) }

  predicate Indirect(i: Insn) { i.RipRel? && i.pre == [0xFF, 0x25] && i.post == [] }

  /** Control goes elsewhere after it. */
  predicate Leaves(i: Insn) { i.JmpRel? || Indirect(i) }

  function Bits(i: Insn): seq<Byte> {
    match i
    case Plain(code) => code
    case RipRel(pre, disp, post) => pre + Enc32(disp) + post
    case JmpRel(disp) => [E9] + Enc32(disp)
  }

  function Len(i: Insn): nat { |Bits(i)| }

  datatype Machine<!S> = Machine(
    legal: Insn -> bool,
    plain: (seq<Byte>, S) -> S,
    rip: (seq<Byte>, seq<Byte>, int, S) -> S)

  datatype Cpu<S> = Cpu(ip: int, s: S)

  datatype Option<T> = None | Some(value: T)

  /** What holds of the x86-64 instruction set: no instruction is a prefix of another, any
      32-bit displacement can stand in a displacement field, lengths are 1 to 15, and a
      rip-relative operand needs an opcode and a ModRM byte before its displacement. */
  ghost predicate Lawful<S>(m: Machine<S>) {
    && (forall i, j :: m.legal(i) && m.legal(j) && Bits(i) <= Bits(j) ==> i == j)
    && (forall d :: Fits32(d) ==> m.legal(JmpRel(d)))
    && (forall d :: m.legal(JmpRel(d)) ==> Fits32(d))
    && m.legal(JmpThrough(0))
    && (forall pre, d, post, d' :: m.legal(RipRel(pre, d, post)) && Fits32(d') ==> m.legal(RipRel(pre, d', post)))
    && (forall pre, d, post :: m.legal(RipRel(pre, d, post)) ==> Fits32(d) && |pre| >= 2)
    && (forall i :: m.legal(i) ==> 1 <= Len(i) <= 15)
  }

  // lea rax, [rip+d]
  const LEA: seq<Byte> := [0x48, 0x8D, 0x05]

  // lea rax, [eip+d]
  const EIP_LEA: seq<Byte> := [0x67, 0x48, 0x8D, 0x05]

  /** No operation, loads of an address relative to rip and to eip, and the two jumps. */
  predicate SmallSet(i: Insn) {
    match i
    case Plain(code) => code == [0x90]
    case RipRel(pre, disp, post) => (pre == LEA || pre == EIP_LEA || pre == INDIRECT) && Fits32(disp) && post == []
    case JmpRel(disp) => Fits32(disp)
  }

  function SmallMachine(): Machine<int> { Machine(SmallSet, (c, s) => s, (p, q, a, s) => a) }

  /** The laws can be met. */
  lemma LawfulMachineExists()
    ensures Lawful(SmallMachine())
  {
    hide Bits;
    forall i, j | SmallSet(i) && SmallSet(j) && Bits(i) <= Bits(j)
      ensures i == j
    {
      SmallSetPrefixFree(i, j);
    }
    forall i | SmallSet(i) ensures 1 <= Len(i) <= 15 {
      SmallLength(i);
    }
  }

  lemma SmallLength(i: Insn)
    requires SmallSet(i)
    ensures 1 <= Len(i) <= 15
  {
    hide Enc32;
  }

  lemma SmallSetPrefixFree(i: Insn, j: Insn)
    requires SmallSet(i) && SmallSet(j) && Bits(i) <= Bits(j)
    ensures i == j
  {
    hide Enc32, Dec32, Wrap32;
    assert Bits(i)[0] == Bits(j)[0];
    match i
    case JmpRel(d) =>
      assert j.JmpRel? && Bits(i) == Bits(j);
      assert Bits(i)[1..] == Enc32(d) && Bits(j)[1..] == Enc32(j.disp);
      DecEnc32(d);
      DecEnc32(j.disp);
    case RipRel(pre, d, _) =>
      assert j.RipRel? && Bits(i) == Bits(j);
      assert pre == j.pre && Bits(i)[|pre|..] == Enc32(d) && Bits(j)[|pre|..] == Enc32(j.disp);
      DecEnc32(d);
      DecEnc32(j.disp);
    case _ =>
  }

  ghost predicate At(mem: Memory, a: int, i: Insn) {
    0 <= a && a + Len(i) <= |mem| && mem[a..a + Len(i)] == Bits(i)
  }

  /** The instruction at address a, if the bytes there are one. */
  ghost function Fetch<S>(m: Machine<S>, mem: Memory, a: int): Option<Insn> {
    if exists i :: m.legal(i) && At(mem, a, i) then
      var i :| m.legal(i) && At(mem, a, i); Some(i)
    else None
  }

  /** The eight bytes at an address, as an address. */
  function Quad(mem: Memory, a: int): Option<int> {
    if 0 <= a && a + 8 <= |mem| then Some(Decode(mem[a..a + 8])) else None
  }

  /** What an instruction does. A jump through memory reads its target there; what other
      rip-relative operands do is up to the machine. */
  ghost function Next<S>(m: Machine<S>, mem: Memory, i: Insn, c: Cpu<S>): Option<Cpu<S>> {
    match i
    case Plain(code) => Some(Cpu(c.ip + |code|, m.plain(code, c.s)))
    case JmpRel(disp) => Some(Cpu(c.ip + Len(i) + disp, c.s))
    case RipRel(pre, disp, post) =>
      var a := c.ip + Len(i) + disp;
      if !Indirect(i) then Some(Cpu(c.ip + Len(i), m.rip(pre, post, a, c.s)))
      else match Quad(mem, a)
        case None => None
        case Some(target) => Some(Cpu(target, c.s))
  }

  /** The state after n instructions. */
  ghost function Steps<S>(m: Machine<S>, mem: Memory, n: nat, c: Cpu<S>): Option<Cpu<S>> {
    if n == 0 then Some(c)
    else match Fetch(m, mem, c.ip)
      case None => None
      case Some(i) =>
        match Next(m, mem, i, c)
        case None => None
        case Some(c') => Steps(m, mem, n - 1, c')
  }

  lemma PrefixesOfOne(m: Memory, x: seq<Byte>, y: seq<Byte>)
    requires |x| <= |m| && x == m[..|x|] && |y| <= |m| && y == m[..|y|]
    ensures x <= y || y <= x
  {
  }

  lemma FetchAt<S>(m: Machine<S>, mem: Memory, a: int, i: Insn)
    requires Lawful(m) && m.legal(i) && At(mem, a, i)
    ensures Fetch(m, mem, a) == Some(i)
  {
    hide Bits;
    var j := Fetch(m, mem, a).value;
    PrefixesOfOne(mem[a..], Bits(i), Bits(j));
  }

  lemma {:induction false} StepsAdd<S>(m: Machine<S>, mem: Memory, n: nat, k: nat, c: Cpu<S>)
    requires Steps(m, mem, n, c).Some?
    ensures Steps(m, mem, n + k, c) == Steps(m, mem, k, Steps(m, mem, n, c).value)
  {
    hide Fetch, Next;
    if n > 0 {
      StepsAdd(m, mem, n - 1, k, Next(m, mem, Fetch(m, mem, c.ip).value, c).value);
    }
  }

  /** Bytes that start with E9 start a near jump, or are the start of one. */
  lemma JumpBehindE9(b: seq<Byte>) returns (d: int)
    requires b != [] && b[0] == E9
    ensures Fits32(d) && (Bits(JmpRel(d)) <= b || b <= Bits(JmpRel(d)))
  {
    hide Dec32, Enc32;
    var field := if |b| >= 5 then b[1..5] else b[1..] + seq(5 - |b|, _ => 0);
    d := Dec32(field);
    EncDec32(field);
    assert Bits(JmpRel(d)) == [E9] + field;
  }

  /** Nothing but a near jump starts with E9. */
  lemma OnlyJumpsStartE9<S>(m: Machine<S>, i: Insn)
    requires Lawful(m) && m.legal(i) && Bits(i) != [] && Bits(i)[0] == E9
    ensures i.JmpRel?
  {
    var d := JumpBehindE9(Bits(i));
    hide Bits;
    assert m.legal(JmpRel(d));
  }

  // ----- straight-line code

  function BitsAll(p: seq<Insn>): seq<Byte> {
    if p == [] then [] else Bits(p[0]) + BitsAll(p[1..])
  }

  /** Running p from c: every instruction up to the end, or up to and including a jump. */
  ghost function RunAll<S>(m: Machine<S>, mem: Memory, p: seq<Insn>, c: Cpu<S>): Option<Cpu<S>> {
    if p == [] then Some(c)
    else if Leaves(p[0]) then Next(m, mem, p[0], c)
    else
      match Next(m, mem, p[0], c)
      case None => None
      case Some(c') => RunAll(m, mem, p[1..], c')
  }

  /** How many instructions that takes. */
  function RunLength(p: seq<Insn>): nat {
    if p == [] then 0 else if Leaves(p[0]) then 1 else 1 + RunLength(p[1..])
  }

  ghost predicate Straight<S>(m: Machine<S>, p: seq<Insn>) {
    forall k :: 0 <= k < |p| ==> m.legal(p[k])
  }

  predicate HasJump(p: seq<Insn>) {
    p != [] && (Leaves(p[0]) || HasJump(p[1..]))
  }

  lemma StepAt<S>(m: Machine<S>, mem: Memory, i: Insn, c: Cpu<S>, n: nat)
    requires Lawful(m) && m.legal(i) && At(mem, c.ip, i)
    ensures Steps(m, mem, n + 1, c) ==
            match Next(m, mem, i, c) { case None => None case Some(c') => Steps(m, mem, n, c') }
  {
    hide Next, Bits, Fetch;
    FetchAt(m, mem, c.ip, i);
  }

  /** The machine runs a listing laid out in memory as RunAll says. */
  lemma {:induction false} RunsListing<S>(m: Machine<S>, mem: Memory, p: seq<Insn>, c: Cpu<S>)
    requires Lawful(m) && Straight(m, p)
    requires 0 <= c.ip && c.ip + |BitsAll(p)| <= |mem| && mem[c.ip..c.ip + |BitsAll(p)|] == BitsAll(p)
    ensures Steps(m, mem, RunLength(p), c) == RunAll(m, mem, p, c)
    ensures !HasJump(p) ==> RunAll(m, mem, p, c).Some? && RunAll(m, mem, p, c).value.ip == c.ip + |BitsAll(p)|
  {
    hide Bits, Next, Fetch, Lawful, Leaves;
    if p != [] {
      ListingHead(mem, p, c.ip);
      StepAt(m, mem, p[0], c, RunLength(p) - 1);
      if !Leaves(p[0]) {
        NextIp(m, mem, p[0], c);
        RunsListing(m, mem, p[1..], Next(m, mem, p[0], c).value);
      }
    }
  }

  lemma NextIp<S>(m: Machine<S>, mem: Memory, i: Insn, c: Cpu<S>)
    requires !Leaves(i)
    ensures Next(m, mem, i, c).Some? && Next(m, mem, i, c).value.ip == c.ip + Len(i)
  {
  }

  /** The first instruction of a listing in memory, and the rest of the listing behind it. */
  lemma ListingHead(mem: Memory, p: seq<Insn>, a: int)
    requires p != [] && 0 <= a && a + |BitsAll(p)| <= |mem| && mem[a..a + |BitsAll(p)|] == BitsAll(p)
    ensures At(mem, a, p[0])
    ensures var b := a + Len(p[0]); var n := |BitsAll(p[1..])|;
            |BitsAll(p)| == Len(p[0]) + n && b + n <= |mem| && mem[b..b + n] == BitsAll(p[1..])
  {
    hide Bits;
    var n := Len(p[0]);
    assert mem[a..a + n] == BitsAll(p)[..n];
    assert mem[a + n..a + |BitsAll(p)|] == BitsAll(p)[n..];
  }

  // ----- relocation

  function Reloc(i: Insn, delta: int): Insn {
    match i
    case RipRel(pre, disp, post) => RipRel(pre, disp + delta, post)
    case JmpRel(disp) => JmpRel(disp + delta)
    case _ => i
  }

  function RelocAll(p: seq<Insn>, delta: int): (q: seq<Insn>)
    ensures |q| == |p| && forall k :: 0 <= k < |p| ==> q[k] == Reloc(p[k], delta)
  {
    seq(|p|, k requires 0 <= k < |p| => Reloc(p[k], delta))
  }

  /** Every displacement still fits its field after the move. */
  predicate Reaches(p: seq<Insn>, delta: int) {
    forall k :: 0 <= k < |p| && (p[k].RipRel? || p[k].JmpRel?) ==> Fits32(p[k].disp + delta)
  }

  lemma {:induction false} RelocLength(p: seq<Insn>, delta: int)
    ensures |BitsAll(RelocAll(p, delta))| == |BitsAll(p)| && RunLength(RelocAll(p, delta)) == RunLength(p)
  {
    if p != [] {
      assert RelocAll(p, delta)[1..] == RelocAll(p[1..], delta);
      RelocLength(p[1..], delta);
    }
  }

  /** The jumps through memory that p makes from ip on find the same address in both memories. */
  predicate SameTargets(mem: Memory, mem': Memory, p: seq<Insn>, ip: int) {
    p != [] ==>
      if Indirect(p[0]) then Quad(mem, ip + Len(p[0]) + p[0].disp) == Quad(mem', ip + Len(p[0]) + p[0].disp)
      else Leaves(p[0]) || SameTargets(mem, mem', p[1..], ip + Len(p[0]))
  }

  lemma SameTargetsHead(mem: Memory, mem': Memory, p: seq<Insn>, ip: int)
    requires p != [] && SameTargets(mem, mem', p, ip)
    ensures Indirect(p[0]) ==> Quad(mem, ip + Len(p[0]) + p[0].disp) == Quad(mem', ip + Len(p[0]) + p[0].disp)
    ensures !Leaves(p[0]) ==> SameTargets(mem, mem', p[1..], ip + Len(p[0]))
  {
    hide Bits, Quad;
  }

  lemma RelocatedStep<S>(m: Machine<S>, mem: Memory, mem': Memory, i: Insn, delta: int, c: Cpu<S>)
    requires Indirect(i) ==> Quad(mem, c.ip + Len(i) + i.disp) == Quad(mem', c.ip + Len(i) + i.disp)
    ensures Len(Reloc(i, delta)) == Len(i) && Leaves(Reloc(i, delta)) == Leaves(i)
    ensures if Leaves(i) then Next(m, mem', Reloc(i, delta), Cpu(c.ip - delta, c.s)) == Next(m, mem, i, c)
            else
              && Next(m, mem, i, c).Some?
              && Next(m, mem', Reloc(i, delta), Cpu(c.ip - delta, c.s)) ==
                 Some(Cpu(Next(m, mem, i, c).value.ip - delta, Next(m, mem, i, c).value.s))
  {
  }

  /** Code moved down by delta, with its displacements raised by delta, does what it did: same
      state; a jump goes where it went, and running off the end stays at the moved end. */
  lemma {:induction false} RelocatedRunsAlike<S>(m: Machine<S>, mem: Memory, mem': Memory, p: seq<Insn>, delta: int,
                                                 c: Cpu<S>)
    requires SameTargets(mem, mem', p, c.ip)
    ensures HasJump(RelocAll(p, delta)) == HasJump(p)
    ensures var r, r' := RunAll(m, mem, p, c), RunAll(m, mem', RelocAll(p, delta), Cpu(c.ip - delta, c.s));
            if HasJump(p) then r' == r else r.Some? && r' == Some(Cpu(r.value.ip - delta, r.value.s))
  {
    hide Next, Bits, Reloc, Quad, Leaves, Indirect;
    if p != [] {
      SameTargetsHead(mem, mem', p, c.ip);
      RelocatedStep(m, mem, mem', p[0], delta, c);
      hide SameTargets;
      assert RelocAll(p, delta)[1..] == RelocAll(p[1..], delta);
      if !Leaves(p[0]) {
        NextIp(m, mem, p[0], c);
        RelocatedRunsAlike(m, mem, mem', p[1..], delta, Next(m, mem, p[0], c).value);
      }
    }
  }

  lemma RelocStraight<S>(m: Machine<S>, p: seq<Insn>, delta: int)
    requires Lawful(m) && Straight(m, p) && Reaches(p, delta)
    ensures Straight(m, RelocAll(p, delta))
  {
  }

  lemma JumpLegal<S>(m: Machine<S>, d: int)
    requires Lawful(m) && Fits32(d)
    ensures m.legal(JmpRel(d))
  {
  }

  lemma JumpIp<S>(m: Machine<S>, mem: Memory, d: int, c: Cpu<S>)
    ensures Next(m, mem, JmpRel(d), c) == Some(Cpu(c.ip + 5 + d, c.s))
  {
  }

  /** The trampoline, delta below the original: relocated prologue, then a jump back behind the
      original one. */
  function Trampoline(p: seq<Insn>, delta: int): seq<Insn> {
    RelocAll(p, delta) + [JmpRel(delta - 5)]
  }

  lemma {:induction false} BitsAppend(p: seq<Insn>, q: seq<Insn>)
    ensures BitsAll(p + q) == BitsAll(p) + BitsAll(q)
  {
    if p == [] {
      assert p + q == q;
    } else {
      assert (p + q)[1..] == p[1..] + q;
      BitsAppend(p[1..], q);
    }
  }

  /** Calling the trampoline is calling the original: with the prologue p at org in the memory
      before patching and its trampoline at tramp in the memory after, both runs reach one
      state and one instruction pointer, the target of p's jump or else the end of p. */
  lemma TrampolineSimulates<S>(m: Machine<S>, before: Memory, after: Memory, p: seq<Insn>,
                               org: nat, tramp: nat, delta: int, s: S)
    requires Lawful(m) && Straight(m, p) && SameTargets(before, after, p, org)
    requires delta == org - tramp && Reaches(p, delta) && Fits32(delta - 5)
    requires org + |BitsAll(p)| <= |before| && before[org..org + |BitsAll(p)|] == BitsAll(p)
    requires var t := BitsAll(Trampoline(p, delta));
             tramp + |t| <= |after| && after[tramp..tramp + |t|] == t
    ensures var end := Steps(m, before, RunLength(p), Cpu(org, s));
            && end == RunAll(m, before, p, Cpu(org, s))
            && Steps(m, after, RunLength(p) + (if HasJump(p) then 0 else 1), Cpu(tramp, s)) == end
            && (!HasJump(p) ==> end.Some? && end.value.ip == org + |BitsAll(p)|)
  {
    hide Bits, Next, Fetch, RunAll, Steps, RunLength, BitsAll, HasJump, Lawful, SameTargets;
    hide RelocAll, Trampoline;
    RunsListing(m, before, p, Cpu(org, s));
    RelocatedFrom(m, before, after, p, delta, org, tramp, s);
    RunsTrampoline(m, after, p, delta, tramp, s);
  }

  lemma RelocatedFrom<S>(m: Machine<S>, mem: Memory, mem': Memory, p: seq<Insn>, delta: int, org: int, tramp: int, s: S)
    requires SameTargets(mem, mem', p, org) && delta == org - tramp
    ensures HasJump(RelocAll(p, delta)) == HasJump(p)
    ensures var c, d := RunAll(m, mem, p, Cpu(org, s)), RunAll(m, mem', RelocAll(p, delta), Cpu(tramp, s));
            if HasJump(p) then c == d else d.Some? && c == Some(Cpu(d.value.ip + delta, d.value.s))
  {
    hide RunAll, HasJump, RelocAll, SameTargets;
    RelocatedRunsAlike(m, mem, mem', p, delta, Cpu(org, s));
    assert Cpu(org, s).ip - delta == tramp;
  }

  lemma RunsTrampoline<S>(m: Machine<S>, mem: Memory, p: seq<Insn>, delta: int, tramp: nat, s: S)
    requires Lawful(m) && Straight(m, p) && Reaches(p, delta) && Fits32(delta - 5)
    requires HasJump(RelocAll(p, delta)) == HasJump(p)
    requires var t := BitsAll(Trampoline(p, delta)); tramp + |t| <= |mem| && mem[tramp..tramp + |t|] == t
    ensures var c := RunAll(m, mem, RelocAll(p, delta), Cpu(tramp, s));
            if HasJump(p) then Steps(m, mem, RunLength(p), Cpu(tramp, s)) == c
            else c.Some? && Steps(m, mem, RunLength(p) + 1, Cpu(tramp, s)) == Some(Cpu(c.value.ip + delta, c.value.s))
  {
    hide Bits, Next, Fetch, RunAll, Steps, RunLength, BitsAll, HasJump, Lawful, RelocAll, Trampoline, Straight, Reaches,
      At;
    var q := RelocAll(p, delta);
    var end := LaidOut(mem, p, q, delta, tramp);
    RelocStraight(m, p, delta);
    RunsListing(m, mem, q, Cpu(tramp, s));
    if !HasJump(p) {
      JumpsBack(m, mem, q, delta, tramp, end, s);
    }
  }

  /** Where the jump back is. */
  lemma LaidOut(mem: Memory, p: seq<Insn>, q: seq<Insn>, delta: int, tramp: nat) returns (end: nat)
    requires q == RelocAll(p, delta)
    requires var t := BitsAll(Trampoline(p, delta)); tramp + |t| <= |mem| && mem[tramp..tramp + |t|] == t
    ensures end == tramp + |BitsAll(q)| <= |mem| && mem[tramp..end] == BitsAll(q) && At(mem, end, JmpRel(delta - 5))
    ensures RunLength(q) == RunLength(p)
  {
    hide Bits, BitsAll, RelocAll, Trampoline, RunLength;
    TrampolineIs(p, delta);
    RelocLength(p, delta);
    end := tramp + |BitsAll(q)|;
    TrampolineParts(mem, q, JmpRel(delta - 5), tramp, end);
  }

  lemma TrampolineIs(p: seq<Insn>, delta: int)
    ensures Trampoline(p, delta) == RelocAll(p, delta) + [JmpRel(delta - 5)]
  {
  }

  /** The bytes of the trampoline: the relocated prologue, then the jump back. */
  lemma TrampolineParts(mem: Memory, q: seq<Insn>, back: Insn, tramp: nat, end: nat)
    requires end == tramp + |BitsAll(q)|
    requires var t := BitsAll(q + [back]); tramp + |t| <= |mem| && mem[tramp..tramp + |t|] == t
    ensures tramp + |BitsAll(q)| <= |mem| && mem[tramp..tramp + |BitsAll(q)|] == BitsAll(q)
    ensures At(mem, end, back)
  {
    hide Bits;
    BitsAppend(q, [back]);
    assert BitsAll([back]) == Bits(back);
    var t, n := BitsAll(q) + Bits(back), |BitsAll(q)|;
    assert mem[tramp..tramp + n] == t[..n];
    assert mem[tramp + n..tramp + n + Len(back)] == t[n..];
  }

  lemma JumpsBack<S>(m: Machine<S>, mem: Memory, q: seq<Insn>, delta: int, tramp: nat, end: nat, s: S)
    requires Lawful(m) && Fits32(delta - 5)
    requires RunAll(m, mem, q, Cpu(tramp, s)).Some?
    requires Steps(m, mem, RunLength(q), Cpu(tramp, s)) == RunAll(m, mem, q, Cpu(tramp, s))
    requires end == RunAll(m, mem, q, Cpu(tramp, s)).value.ip && At(mem, end, JmpRel(delta - 5))
    ensures var c := RunAll(m, mem, q, Cpu(tramp, s)).value;
            Steps(m, mem, RunLength(q) + 1, Cpu(tramp, s)) == Some(Cpu(c.ip + delta, c.s))
  {
    hide Bits, Next, Fetch, RunAll, Lawful;
    var c := RunAll(m, mem, q, Cpu(tramp, s)).value;
    JumpLegal(m, delta - 5);
    StepAt(m, mem, JmpRel(delta - 5), c, 0);
    JumpIp(m, mem, delta - 5, c);
    StepsAdd(m, mem, RunLength(q), 1, Cpu(tramp, s));
  }
}
