/** The scan of a function's first instructions: how many bytes to save, and what to fix up. */
module Prologue {
  import opened Bytes
  import opened Isa
  import Walk

  // size of the jump written over the entry
  const JMP_LEN: nat := 5

  // bytes of code handed to the disassembler
  const MAX_LEN_TO_DISASSEMBLE: nat := 24

  const MAX_INSTRUMENTS: nat := 24

  const MAX_INSN_LEN: nat := 15

  // marks "no rip operand seen"
  const NULL_RIP: int := 0x7FF00000

  /** The instructions that start before offset 5. */
  function Take(ds: seq<Insn>, off: nat): (p: seq<Insn>)
    ensures p <= ds
  {
    if off >= JMP_LEN || ds == [] then []
    else
      var q := Take(ds[1..], off + Len(ds[0]));
      assert ds == [ds[0]] + ds[1..];
      [ds[0]] + q
  }

  /** What the disassembler makes of the window: instructions of any length, none empty, that
      fill it. An instruction may be longer than 15 bytes, and the last one may be cut off. */
  predicate Listing(ds: seq<Insn>) {
    (forall k :: 0 <= k < |ds| ==> Len(ds[k]) >= 1) && |BitsAll(ds)| == MAX_LEN_TO_DISASSEMBLE
  }

  /** No instruction starts at offset 5 or behind: the loop runs out of input first. */
  predicate Filled(ds: seq<Insn>) { Take(ds, 0) == ds }

  /** How many bytes are saved. */
  function Saved(ds: seq<Insn>): nat {
    if Filled(ds) then 0 else |BitsAll(Take(ds, 0))|
  }

  /** Where the displacement of a jump behind another instruction is taken to be. */
  function WithJmp(ds: seq<Insn>): int {
    if Filled(ds) then -1 else JumpFix(Take(ds, 0))
  }

  /** The instruction that runs to the end of the window has a rip operand. The code then looks
      for its displacement in the six bytes in front of the slot. */
  predicate FilledByRip(ds: seq<Insn>) { Filled(ds) && RipText(ds) != NULL_RIP }

  /** Among the prefixes is 67, with which the operand is printed without rip, or a segment prefix,
      which is printed in front of it. */
  predicate Overridden(pre: seq<Byte>) {
    && pre != [] && Walk.IsPrefix(64, pre[0])
    && (pre[0] in {0x67, 0x2E, 0x36, 0x3E, 0x26, 0x64, 0x65} || Overridden(pre[1..]))
  }

  lemma {:induction false} NotOverridden(pre: seq<Byte>)
    requires forall i :: 0 <= i < |pre| ==> pre[i] !in {0x67, 0x2E, 0x36, 0x3E, 0x26, 0x64, 0x65}
    ensures !Overridden(pre)
  {
    if pre != [] {
      NotOverridden(pre[1..]);
    }
  }

  /** The operand is printed as [rip+...]. */
  predicate Printed(i: Insn) { i.RipRel? && i.disp > 0 && !Overridden(i.pre) }

  /** The displacement of the last operand printed like that. */
  function RipText(p: seq<Insn>): int {
    if p == [] then NULL_RIP
    else
      var last := p[|p| - 1];
      if Printed(last) then last.disp else RipText(p[..|p| - 1])
  }

  /** Five bytes that start with E9. */
  predicate LooksLikeJump(i: Insn) { Len(i) == 5 && Bits(i)[0] == E9 }

  /** Where the code takes the displacement of a jump behind another instruction to be, or -1. */
  function JumpFix(p: seq<Insn>): int {
    if |p| >= 2 && LooksLikeJump(p[|p| - 1]) then Len(p[|p| - 2]) + 1 else -1
  }

  lemma {:induction false} TakeBounds(ds: seq<Insn>, off: nat)
    requires forall k :: 0 <= k < |ds| ==> Len(ds[k]) >= 1
    requires off + |BitsAll(ds)| >= JMP_LEN && off < JMP_LEN
    ensures var p := Take(ds, off);
            && p != [] && JMP_LEN <= off + |BitsAll(p)| && off + |BitsAll(p[..|p| - 1])| < JMP_LEN
            && off + |BitsAll(p)| == off + |BitsAll(p[..|p| - 1])| + Len(p[|p| - 1]) && |p| <= JMP_LEN - off
  {
    hide Bits, BitsAll, Take;
    TakeHead(ds, off);
    var off' := off + Len(ds[0]);
    var q := Take(ds[1..], off');
    ConsBits(ds[0], q);
    if off' < JMP_LEN {
      TakeBounds(ds[1..], off');
      ConsInit(ds[0], q);
    } else {
      assert [ds[0]][..0] == [];
      NoBits(ds);
    }
  }

  lemma TakeHead(ds: seq<Insn>, off: nat)
    requires off < JMP_LEN <= off + |BitsAll(ds)|
    ensures ds != [] && Take(ds, off) == [ds[0]] + Take(ds[1..], off + Len(ds[0]))
    ensures |BitsAll(ds)| == Len(ds[0]) + |BitsAll(ds[1..])|
    ensures off + Len(ds[0]) >= JMP_LEN ==> Take(ds[1..], off + Len(ds[0])) == []
  {
    hide Bits;
  }

  lemma ConsBits(i: Insn, q: seq<Insn>)
    ensures |BitsAll([i] + q)| == Len(i) + |BitsAll(q)| && |BitsAll([i])| == Len(i)
  {
    hide Bits;
    assert ([i] + q)[1..] == q;
    assert [i][1..] == [];
  }

  lemma ConsInit(i: Insn, q: seq<Insn>)
    requires q != []
    ensures var p := [i] + q;
            |BitsAll(p[..|p| - 1])| == Len(i) + |BitsAll(q[..|q| - 1])| && p[|p| - 1] == q[|q| - 1]
  {
    hide Bits, BitsAll;
    var p := [i] + q;
    assert p[..|p| - 1] == [i] + q[..|q| - 1];
    ConsBits(i, q[..|q| - 1]);
  }

  /** 5 to 23 bytes are saved, or none if the window is filled; with instructions of at most 15
      bytes it is 5 to 19. */
  lemma SavedBounds(ds: seq<Insn>)
    requires Listing(ds)
    ensures Filled(ds) <==> |BitsAll(Take(ds, 0))| == MAX_LEN_TO_DISASSEMBLE
    ensures if Filled(ds) then Saved(ds) == 0 else JMP_LEN <= Saved(ds) < MAX_LEN_TO_DISASSEMBLE
    ensures (forall k :: 0 <= k < |ds| ==> Len(ds[k]) <= MAX_INSN_LEN) ==>
              !Filled(ds) && Saved(ds) < JMP_LEN + MAX_INSN_LEN
  {
    hide Bits, Take;
    TakeBounds(ds, 0);
    var p := Take(ds, 0);
    assert ds == p + ds[|p|..];
    BitsAppend(p, ds[|p|..]);
    if |p| < |ds| {
      BitsOfRest(ds, |p|);
    }
    assert p[|p| - 1] == ds[|p| - 1];
  }

  lemma BitsOfRest(ds: seq<Insn>, n: nat)
    requires n < |ds| && Len(ds[n]) >= 1
    ensures |BitsAll(ds[n..])| >= 1
  {
    hide Bits;
  }

  /** The prologue ends exactly where the offset first reaches 5. */
  lemma {:induction false} TakeStops(ds: seq<Insn>, off: nat, n: nat)
    requires n <= |Take(ds, off)|
    ensures n == |Take(ds, off)| <==> off + |BitsAll(ds[..n])| >= JMP_LEN || n == |ds|
  {
    hide Bits;
    if n > 0 {
      TakeStops(ds[1..], off + Len(ds[0]), n - 1);
      assert ds[..n][1..] == ds[1..][..n - 1];
    }
  }

  /** The disassembly loop: the least instruction boundary of 5 or more behind which another
      instruction starts, or 0; instructions are never split, and the limit on their number is
      never reached. */
  method Scan(ds: seq<Insn>) returns (saved: nat, ripOffset: int, withJmp: int)
    requires Listing(ds)
    ensures saved == Saved(ds) && withJmp == WithJmp(ds) && ripOffset == RipText(Take(ds, 0))
    ensures saved == 0 || JMP_LEN <= saved < MAX_LEN_TO_DISASSEMBLE
  {
    hide Bits, LooksLikeJump, Take, BitsAll, Overridden;
    TakeBounds(ds, 0);
    SavedBounds(ds);
    withJmp, ripOffset, saved := -1, NULL_RIP, 0;
    var n, off := 0, 0;
    ghost var p := Take(ds, 0);
    NoBits(ds);
    while n < |ds|
      invariant 0 <= n <= |p| && 0 <= off == |BitsAll(ds[..n])|
      invariant ripOffset == RipText(ds[..n]) && withJmp == -1 && saved == 0
      decreases |ds| - n
    {
      TakeStops(ds, 0, n);
      if off >= JMP_LEN {
        saved := off;
        assert p == ds[..n];
        if n > 0 && LooksLikeJump(ds[n - 1]) {
          if n >= 2 {
            withJmp := Len(ds[n - 2]) + 1;
          }
        }
        return;
      }
      AppendOne(ds, n);
      if Printed(ds[n]) {
        ripOffset := ds[n].disp;
      }
      off := off + Len(ds[n]);
      n := n + 1;
      if n >= MAX_INSTRUMENTS {
        break;
      }
    }
    assert p == ds[..n] == ds;
  }

  lemma NoBits(ds: seq<Insn>)
    ensures ds[..0] == [] && BitsAll(ds[..0]) == []
  {
  }

  /** One more instruction of the listing. */
  lemma AppendOne(ds: seq<Insn>, n: nat)
    requires n < |ds|
    ensures ds[..n + 1] == ds[..n] + [ds[n]] && ds[..n + 1][..n] == ds[..n]
    ensures |BitsAll(ds[..n + 1])| == |BitsAll(ds[..n])| + Len(ds[n])
    ensures ds[n..][0] == ds[n] && ds[n..][1..] == ds[n + 1..]
  {
    hide Bits;
    assert ds[..|ds|] == ds;
    BitsAppend(ds[..n], [ds[n]]);
    assert BitsAll([ds[n]]) == Bits(ds[n]);
    assert ds[..n + 1] == ds[..n] + [ds[n]];
  }
}
