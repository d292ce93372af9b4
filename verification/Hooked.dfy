/** What a hooked function does: its entry reaches the new function, and the trampoline is the
    original. */
module Hooked {
  import opened Bytes
  import opened Isa
  import opened Prologue
  import opened Fixups
  import opened Slot
  import opened Records

  lemma ScannedPrologue<S>(m: Machine<S>, ds: seq<Insn>, w: seq<Byte>)
    requires Lawful(m) && Decodes(ds, w) && Straight(m, Take(ds, 0))
    ensures Scanned(m, Take(ds, 0))
  {
    hide Bits, Lawful, Take;
    TakeBounds(ds, 0);
  }

  /** Memory from a on holds b. */
  ghost predicate Has(mem: Memory, a: nat, b: seq<Byte>) {
    a + |b| <= |mem| && mem[a..a + |b|] == b
  }

  lemma SlotHasFixed(m: Memory, slot: nat, org: nat, newFunc: nat, w: seq<Byte>, ds: seq<Insn>, delta: int)
    requires Holds(m, slot, org, newFunc, w, ds, delta) && !Filled(ds)
    ensures var p := Take(ds, 0);
            && JMP_LEN <= |BitsAll(p)| && Fixable(p) && Has(m, slot, Fixed(p, delta))
            && delta == org - slot && Decodes(ds, w)
  {
    hide Decodes, Take, BitsAll, Filled, Fixed, Fixable, EntryJump, Bounce, Encode;
  }

  /** The bytes of an allowed prologue are in the slot, relocated. */
  lemma RelocatedInSlot<S>(m: Machine<S>, after: Memory, slot: nat, org: nat, newFunc: nat, w: seq<Byte>,
                           ds: seq<Insn>, delta: int)
    requires Lawful(m) && Holds(after, slot, org, newFunc, w, ds, delta) && !Filled(ds)
    requires Straight(m, Take(ds, 0)) && delta % TWO32 != 0 && Allowed(Take(ds, 0), delta)
    ensures Has(after, slot, BitsAll(Trampoline(Take(ds, 0), delta))) && delta == org - slot
  {
    var p := Take(ds, 0);
    hide Lawful, Straight, Scanned, Holds, Decodes, Allowed, Take, Filled, Bits, BitsAll, Fixable, Fixed, Trampoline,
      Has;
    SlotHasFixed(after, slot, org, newFunc, w, ds, delta);
    ScannedPrologue(m, ds, w);
    FixedExactly(m, p, delta);
  }

  /** Calling the saved pointer runs the original function: for every machine and every
      prologue the fix-ups allow, the trampoline in the hooked memory and the function in the
      memory before reach one state and one instruction pointer, which is the target of a jump
      in the prologue, or else the first instruction not saved. */
  lemma TrampolineIsOriginal<S>(m: Machine<S>, before: Memory, after: Memory, slot: nat, org: nat, newFunc: nat,
                                w: seq<Byte>, ds: seq<Insn>, delta: int, s: S)
    requires Lawful(m) && Holds(after, slot, org, newFunc, w, ds, delta) && !Filled(ds)
    requires Has(before, org, BitsAll(Take(ds, 0))) && SameTargets(before, after, Take(ds, 0), org)
    requires Straight(m, Take(ds, 0)) && delta % TWO32 != 0
    requires Allowed(Take(ds, 0), delta) && Reaches(Take(ds, 0), delta) && Fits32(delta - 5)
    ensures var p := Take(ds, 0);
            var end := Steps(m, before, RunLength(p), Cpu(org, s));
            && end == RunAll(m, before, p, Cpu(org, s))
            && Steps(m, after, RunLength(p) + (if HasJump(p) then 0 else 1), Cpu(slot, s)) == end
            && (!HasJump(p) ==> end.Some? && end.value.ip == org + |BitsAll(p)|)
  {
    hide Lawful, Straight, Holds, Allowed, Reaches, Steps, RunAll, RunLength, HasJump, Take, BitsAll, Trampoline,
      SameTargets, Filled;
    RelocatedInSlot(m, after, slot, org, newFunc, w, ds, delta);
    TrampolineSimulates(m, before, after, Take(ds, 0), org, slot, delta, s);
  }

  /** Entering a hooked function reaches the new function with the state unchanged. */
  lemma EntryReachesNew<S>(m: Machine<S>, mem: Memory, slot: nat, org: nat, newFunc: nat, s: S)
    requires Lawful(m) && Has(mem, org, EntryJump(slot, org)) && Has(mem, slot + BOUNCE_AT, Bounce(newFunc))
    requires Fits32(slot + BOUNCE_AT - org - 5) && newFunc < TWO64
    ensures Steps(m, mem, 2, Cpu(org, s)) == Some(Cpu(newFunc, s))
  {
    var d, b := slot + BOUNCE_AT - org - 5, slot + BOUNCE_AT;
    EntryAt(mem, slot, org, d);
    hide Lawful, Has, At, Bounce, EntryJump, Steps;
    JumpThenSlot(m, mem, org, d, b, newFunc, s);
  }

  lemma EntryAt(mem: Memory, slot: nat, org: nat, d: int)
    requires Has(mem, org, EntryJump(slot, org)) && d == slot + BOUNCE_AT - org - 5
    ensures At(mem, org, JmpRel(d))
  {
    hide Enc32;
  }

  lemma JumpThenSlot<S>(m: Machine<S>, mem: Memory, org: nat, d: int, b: nat, newFunc: nat, s: S)
    requires Lawful(m) && At(mem, org, JmpRel(d)) && Fits32(d) && b == org + 5 + d
    requires Has(mem, b, Bounce(newFunc)) && newFunc < TWO64
    ensures Steps(m, mem, 2, Cpu(org, s)) == Some(Cpu(newFunc, s))
  {
    hide Bits, At, Has, Bounce, Lawful, Fetch, Next, Steps;
    JumpLegal(m, d);
    StepAt(m, mem, JmpRel(d), Cpu(org, s), 1);
    JumpIp(m, mem, d, Cpu(org, s));
    SlotJumps(m, mem, b, newFunc, s);
  }

  lemma BounceBytes(mem: Memory, b: nat, newFunc: nat)
    requires Has(mem, b, Bounce(newFunc)) && newFunc < TWO64
    ensures At(mem, b, JmpThrough(0)) && Quad(mem, b + 6) == Some(newFunc)
  {
    hide Encode, Decode;
    SliceOfSlice(mem, b, 14, 0, 6);
    SliceOfSlice(mem, b, 14, 6, 14);
    assert Enc32(0) == [0, 0, 0, 0] by { ZeroField(); }
    assert Bounce(newFunc)[..6] == Bits(JmpThrough(0)) && Bounce(newFunc)[6..] == Encode(8, newFunc);
    Pow256At8();
    DecodeEncode(8, newFunc);
  }

  lemma ZeroField()
    ensures Enc32(0) == [0, 0, 0, 0]
  {
    assert Encode(1, 0) == [0] && Encode(2, 0) == [0, 0] && Encode(3, 0) == [0, 0, 0];
  }

  /** The bounce: the machine reads its target from the eight bytes behind the jump. */
  lemma SlotJumps<S>(m: Machine<S>, mem: Memory, b: nat, newFunc: nat, s: S)
    requires Lawful(m) && Has(mem, b, Bounce(newFunc)) && newFunc < TWO64
    ensures Steps(m, mem, 1, Cpu(b, s)) == Some(Cpu(newFunc, s))
  {
    BounceBytes(mem, b, newFunc);
    assert m.legal(JmpThrough(0));
    IndirectNext(m, mem, b, newFunc, s);
    hide Bits, At, Has, Quad, Lawful, Bounce, Fetch, Next;
    FetchAt(m, mem, b, JmpThrough(0));
    StepsOne(m, mem, JmpThrough(0), Cpu(b, s));
  }

  lemma IndirectNext<S>(m: Machine<S>, mem: Memory, b: nat, target: int, s: S)
    requires Quad(mem, b + 6) == Some(target)
    ensures Next(m, mem, JmpThrough(0), Cpu(b, s)) == Some(Cpu(target, s))
  {
    hide Enc32;
  }

  lemma StepsOne<S>(m: Machine<S>, mem: Memory, i: Insn, c: Cpu<S>)
    requires Fetch(m, mem, c.ip) == Some(i) && Next(m, mem, i, c).Some?
    ensures Steps(m, mem, 1, c) == Next(m, mem, i, c)
  {
    hide Fetch, Next;
    assert Steps(m, mem, 0, Next(m, mem, i, c).value) == Next(m, mem, i, c);
  }

  // ----- when the bounce survives

  /** What runs over the field of 20 bytes, over the start of the bounce. */
  lemma BounceOverrun(mem: Memory, slot: nat, org: nat, newFunc: nat, w: seq<Byte>, ds: seq<Insn>, delta: int)
    requires Holds(mem, slot, org, newFunc, w, ds, delta)
    ensures Imaged(ds) && Saved(ds) < MAX_LEN_TO_DISASSEMBLE && slot + SLOT_SIZE <= |mem|
    ensures var n := Saved(ds);
            Has(mem, slot + BOUNCE_AT, Bounce(newFunc)) <==>
            n <= MAX_INSN_LEN || Image(ds, delta)[TRAMPOLINE_LEN..] == Bounce(newFunc)[..n - MAX_INSN_LEN]
  {
    hide Decodes, Saved, Image, Imaged, Bounce, Encode, EntryJump;
    var n, t, b := Saved(ds), Image(ds, delta), mem[slot + BOUNCE_AT..slot + BOUNCE_AT + 14];
    forall k | 0 <= k < 14 && k >= n - MAX_INSN_LEN ensures b[k] == Bounce(newFunc)[k] {
      assert mem[slot + BOUNCE_AT + k] == b[k];
    }
    if n <= MAX_INSN_LEN {
      assert b == Bounce(newFunc);
    } else {
      var over := n - MAX_INSN_LEN;
      forall k | 0 <= k < over ensures b[k] == t[TRAMPOLINE_LEN + k] {
        assert mem[slot..slot + n + 5][TRAMPOLINE_LEN + k] == mem[slot + TRAMPOLINE_LEN + k];
      }
      assert b[..over] == t[TRAMPOLINE_LEN..];
      assert b == b[..over] + b[over..] && b[over..] == Bounce(newFunc)[over..];
    }
  }

  /** The last five bytes of a long trampoline are the jump back. */
  lemma LongImage(ds: seq<Insn>, w: seq<Byte>, delta: int)
    requires Decodes(ds, w) && MAX_INSN_LEN < Saved(ds)
    ensures Imaged(ds) && Saved(ds) < MAX_LEN_TO_DISASSEMBLE
    ensures Image(ds, delta)[Saved(ds)..] == [E9] + Enc32(delta - 5)
  {
    ScannedCode(ds, w);
    hide Bits, BitsAll, Take, Decodes, RipText, JumpFix, Fixed, Fixable;
    JumpBackKept(Take(ds, 0), delta);
    BackBits(delta - 5);
  }

  lemma BackBits(d: int)
    ensures Bits(JmpRel(d)) == [E9] + Enc32(d)
  {
  }

  /** Where n saved bytes push the jump back into the bounce. */
  lemma OverrunBytes(t: seq<Byte>, n: nat, d: int, newFunc: nat)
    requires MAX_INSN_LEN < n < MAX_LEN_TO_DISASSEMBLE && |t| == n + 5 && t[n..] == [E9] + Enc32(d)
    ensures t[TRAMPOLINE_LEN..] == Bounce(newFunc)[..n - MAX_INSN_LEN] <==>
            n < TRAMPOLINE_LEN && Enc32(d)[19 - n..] == INSTRUCTION_BOUNCE[..4][..n - MAX_INSN_LEN]
  {
    hide Enc32, Encode;
    var b := Bounce(newFunc)[..n - MAX_INSN_LEN];
    if n < TRAMPOLINE_LEN {
      assert t[TRAMPOLINE_LEN..] == t[n..][TRAMPOLINE_LEN - n..] == Enc32(d)[19 - n..];
      assert b == INSTRUCTION_BOUNCE[..4][..n - MAX_INSN_LEN];
    } else {
      assert t[TRAMPOLINE_LEN..][n - TRAMPOLINE_LEN] == t[n..][0] == E9;
      assert b[n - TRAMPOLINE_LEN] != E9;
    }
  }

  /** The jump back is written behind the saved code, in a field of 20 bytes. With at most 15
      bytes saved the bounce stays whole; with 16 to 19 only if the high bytes of the jump back
      happen to be those of the bounce; with 20 or more never. */
  lemma BounceWhole(mem: Memory, slot: nat, org: nat, newFunc: nat, w: seq<Byte>, ds: seq<Insn>, delta: int)
    requires Holds(mem, slot, org, newFunc, w, ds, delta)
    ensures var n := Saved(ds);
            Has(mem, slot + BOUNCE_AT, Bounce(newFunc)) <==>
            n <= MAX_INSN_LEN ||
            (n < TRAMPOLINE_LEN && Enc32(delta - 5)[19 - n..] == INSTRUCTION_BOUNCE[..4][..n - MAX_INSN_LEN])
  {
    BounceOverrun(mem, slot, org, newFunc, w, ds, delta);
    hide Saved, Image, Imaged, Bounce, Encode, EntryJump, Enc32, Has;
    var n := Saved(ds);
    if n > MAX_INSN_LEN {
      assert Decodes(ds, w);
      hide Holds, Decodes;
      LongImage(ds, w, delta);
      OverrunBytes(Image(ds, delta), n, delta - 5, newFunc);
    }
  }

  /** A prologue of 4 and 12 bytes, 8 more bytes behind it. */
  predicate FourAndTwelve(ds: seq<Insn>) {
    |ds| == 3 && (forall k :: 0 <= k < 3 ==> ds[k].Plain?) && Len(ds[0]) == 4 && Len(ds[1]) == 12 && Len(ds[2]) == 8
  }

  /** With 16 bytes saved and the slot less than 2 GB below the function, the bounce is broken. */
  lemma SixteenBytesBreak(mem: Memory, slot: nat, org: nat, newFunc: nat, w: seq<Byte>, ds: seq<Insn>, delta: int)
    requires FourAndTwelve(ds) && Holds(mem, slot, org, newFunc, w, ds, delta) && JMP_LEN <= delta < TWO31
    ensures Saved(ds) == 16 && !Has(mem, slot + BOUNCE_AT, Bounce(newFunc))
  {
    hide Holds, Has, Bounce, Saved, FourAndTwelve, Enc32;
    BounceWhole(mem, slot, org, newFunc, w, ds, delta);
    SixteenSaved(ds);
    TopByte(delta - 5);
    assert Enc32(delta - 5)[3..][0] == Enc32(delta - 5)[3];
    assert INSTRUCTION_BOUNCE[..4][..1][0] == 0xFF;
  }

  lemma TopByte(d: nat)
    requires d < TWO31
    ensures Enc32(d)[3] < 0x80
  {
    assert Pow256(0) == 1 && Pow256(1) == 256 && Pow256(2) == 65536 && Pow256(3) == 16777216;
    TopBelow(3, d);
  }

  lemma {:induction false} TopBelow(n: nat, u: nat)
    requires u < 0x80 * Pow256(n)
    ensures Encode(n + 1, u)[n] < 0x80
  {
    if n > 0 {
      TopBelow(n - 1, u / 256);
    }
  }

  lemma SixteenSaved(ds: seq<Insn>)
    requires FourAndTwelve(ds)
    ensures Saved(ds) == 16
  {
    hide Bits;
    assert ds[1..][0] == ds[1] && ds[1..][1..][0] == ds[2];
    assert Take(ds[1..][1..], 16) == [];
    assert Take(ds[1..], 4) == [ds[1]];
    assert Take(ds, 0) == [ds[0], ds[1]];
    assert [ds[0], ds[1]][1..] == [ds[1]];
    BitsOfOne(ds[1]);
  }

  // ----- after installation

  /** The eight bytes from which p, run from ip, reads the target of its jump. */
  function JumpCell(p: seq<Insn>, ip: int): Option<int> {
    if p == [] then None
    else if Indirect(p[0]) then Some(ip + Len(p[0]) + p[0].disp)
    else if Leaves(p[0]) then None
    else JumpCell(p[1..], ip + Len(p[0]))
  }

  /** A jump through memory reads neither a block nor a hooked entry, nor where a hook strayed. */
  ghost predicate CellKept(addrs: seq<nat>, recs: set<Rec>, p: seq<Insn>, ip: int) {
    match JumpCell(p, ip)
    case None => true
    case Some(a) =>
      && 0 <= a && Clear(addrs, a, 8)
      && forall r :: r in recs ==>
           && (r.org + JMP_LEN <= a || a + 8 <= r.org)
           && (r.strays && r.blk < |addrs| ==> OffFront(addrs, r.blk, a, 8))
  }

  lemma {:induction false} CellDecides(mem: Memory, mem': Memory, p: seq<Insn>, ip: int)
    requires JumpCell(p, ip).Some? ==> Quad(mem, JumpCell(p, ip).value) == Quad(mem', JumpCell(p, ip).value)
    ensures SameTargets(mem, mem', p, ip)
  {
    hide Bits, Quad;
    if p != [] && !Leaves(p[0]) {
      CellDecides(mem, mem', p[1..], ip + Len(p[0]));
    }
  }

  lemma CellSame(before: Memory, after: Memory, addrs: seq<nat>, recs: set<Rec>, p: seq<Insn>, ip: int)
    requires CodeKept(after, before, addrs, recs) && CellKept(addrs, recs, p, ip)
    ensures SameTargets(before, after, p, ip)
  {
    hide JumpCell, Decode, CodeKept;
    match JumpCell(p, ip) {
      case Some(a) =>
        UntouchedLength(after, before, addrs, recs);
        if 0 <= a && a + 8 <= |before| {
          UntouchedCode(after, before, addrs, recs, a, 8);
        }
      case None =>
    }
    CellDecides(before, after, p, ip);
  }

  lemma FieldsOf(after: Memory, before: Memory, addrs: seq<nat>, dis: Disassembler, page: nat, recs: set<Rec>,
                 r: Rec, slot: nat)
    requires Installed(after, before, addrs, dis, page, recs) && r in recs
    requires r.blk < |addrs| && slot == SlotAt(addrs, r.blk, r.idx)
    ensures Holds(after, slot, r.org, r.newFunc, r.w, dis(r.w), r.org - slot) && CodeKept(after, before, addrs, recs)
    ensures r.newFunc < TWO64 && (slot + SLOT_SIZE <= r.org || r.org + MAX_LEN_TO_DISASSEMBLE <= slot)
    ensures SawOriginal(before, recs)
  {
    hide CodeKept, RestZero, Spread, Holds, Separate, SawOriginal;
    SlotInBlock(addrs, |before|, r.blk, r.idx, r.org, MAX_LEN_TO_DISASSEMBLE);
  }

  /** The saved bytes were the original ones, if no other entry lies in them. */
  lemma PrologueBefore(before: Memory, recs: set<Rec>, r: Rec, ds: seq<Insn>)
    requires SawOriginal(before, recs) && r in recs && Decodes(ds, r.w) && !Filled(ds) && Alone(recs, r, Saved(ds))
    ensures Has(before, r.org, BitsAll(Take(ds, 0)))
  {
    hide BitsAll, Take, Decodes, Alone, RipText, JumpFix, Imaged;
    ScannedCode(ds, r.w);
    var n := Saved(ds);
    assert before[r.org..r.org + n] == r.w[..n];
  }

  /** Once all hooks are in place: entering a hooked function whose saved bytes hold no other
      entry, whose prologue is at most 15 bytes and is one the fix-ups allow, runs the new
      function; calling its trampoline runs the original. */
  lemma InstalledHookRuns<S>(m: Machine<S>, after: Memory, before: Memory, addrs: seq<nat>, dis: Disassembler,
                             page: nat, recs: set<Rec>, r: Rec, slot: nat, s: S)
    requires Installed(after, before, addrs, dis, page, recs) && r in recs
    requires r.blk < |addrs| && slot == SlotAt(addrs, r.blk, r.idx)
    requires var ds, delta := dis(r.w), r.org - slot;
             && 0 < Saved(ds) <= MAX_INSN_LEN && Alone(recs, r, Saved(ds))
             && Fits32(delta - 5) && Fits32(BOUNCE_AT - delta - 5)
    requires var p, delta := Take(dis(r.w), 0), r.org - slot;
             && Lawful(m) && Straight(m, p) && Allowed(p, delta) && Reaches(p, delta) && CellKept(addrs, recs, p, r.org)
    ensures Steps(m, after, 2, Cpu(r.org, s)) == Some(Cpu(r.newFunc, s))
    ensures var p := Take(dis(r.w), 0);
            var end := RunAll(m, before, p, Cpu(r.org, s));
            && Steps(m, after, RunLength(p) + (if HasJump(p) then 0 else 1), Cpu(slot, s)) ==
               Steps(m, before, RunLength(p), Cpu(r.org, s)) == end
            && (!HasJump(p) ==> end.Some? && end.value.ip == r.org + |BitsAll(p)|)
  {
    var delta, ds := r.org - slot, dis(r.w);
    hide Lawful, Straight, Installed, Allowed, Reaches, Take, BitsAll, Steps, RunAll, RunLength, HasJump, SlotAt,
      CellKept, Saved, Alone, Holds, Filled, Has, Bounce, EntryJump, SameTargets;
    HookFacts(after, before, addrs, dis, page, recs, r, slot, ds, delta);
    EntryFacts(after, before, addrs, dis, page, recs, r, slot, ds, delta);
    EntryReachesNew(m, after, slot, r.org, r.newFunc, s);
    TrampolineIsOriginal(m, before, after, slot, r.org, r.newFunc, r.w, ds, delta, s);
  }

  lemma EntryFacts(after: Memory, before: Memory, addrs: seq<nat>, dis: Disassembler, page: nat, recs: set<Rec>,
                   r: Rec, slot: nat, ds: seq<Insn>, delta: int)
    requires Installed(after, before, addrs, dis, page, recs) && r in recs && ds == dis(r.w) && delta == r.org - slot
    requires r.blk < |addrs| && slot == SlotAt(addrs, r.blk, r.idx) && Saved(ds) <= MAX_INSN_LEN
    ensures Has(after, r.org, EntryJump(slot, r.org)) && Has(after, slot + BOUNCE_AT, Bounce(r.newFunc))
    ensures r.newFunc < TWO64
  {
    hide Installed, Holds, Saved, Has, Bounce, EntryJump, SlotAt, CodeKept, SawOriginal;
    FieldsOf(after, before, addrs, dis, page, recs, r, slot);
    BounceWhole(after, slot, r.org, r.newFunc, r.w, ds, delta);
    EntryWritten(after, slot, r.org, r.newFunc, r.w, ds, delta);
  }

  lemma HookFacts(after: Memory, before: Memory, addrs: seq<nat>, dis: Disassembler, page: nat, recs: set<Rec>,
                  r: Rec, slot: nat, ds: seq<Insn>, delta: int)
    requires Installed(after, before, addrs, dis, page, recs) && r in recs && ds == dis(r.w) && delta == r.org - slot
    requires r.blk < |addrs| && slot == SlotAt(addrs, r.blk, r.idx)
    requires 0 < Saved(ds) && Alone(recs, r, Saved(ds)) && Fits32(delta - 5)
    requires CellKept(addrs, recs, Take(ds, 0), r.org)
    ensures Holds(after, slot, r.org, r.newFunc, r.w, ds, delta) && !Filled(ds) && delta % TWO32 != 0
    ensures Has(before, r.org, BitsAll(Take(ds, 0))) && SameTargets(before, after, Take(ds, 0), r.org)
  {
    hide Installed, Holds, Decodes, Alone, Take, BitsAll, Has, SlotAt, CellKept, SameTargets, CodeKept, SawOriginal,
      Saved, Filled;
    HeldDecodes(after, before, addrs, dis, page, recs, r, slot);
    FieldsOf(after, before, addrs, dis, page, recs, r, slot);
    PrologueBefore(before, recs, r, ds);
    CellSame(before, after, addrs, recs, Take(ds, 0), r.org);
    DeltaSmall(delta, slot, r.org);
  }

  lemma DeltaSmall(delta: int, slot: nat, org: nat)
    requires delta == org - slot && Fits32(delta - 5)
    requires slot + SLOT_SIZE <= org || org + MAX_LEN_TO_DISASSEMBLE <= slot
    ensures delta % TWO32 != 0
  {
    if delta > 0 {
      assert delta < TWO32;
    } else {
      assert 0 < delta + TWO32 < TWO32 && delta % TWO32 == delta + TWO32;
    }
  }

  /** What an installed hook was decoded from. */
  lemma HeldDecodes(after: Memory, before: Memory, addrs: seq<nat>, dis: Disassembler, page: nat, recs: set<Rec>,
                    r: Rec, slot: nat)
    requires Installed(after, before, addrs, dis, page, recs) && r in recs
    requires r.blk < |addrs| && slot == SlotAt(addrs, r.blk, r.idx)
    ensures Decodes(dis(r.w), r.w) && (Saved(dis(r.w)) > 0 ==> !Filled(dis(r.w)))
  {
    FieldsOf(after, before, addrs, dis, page, recs, r, slot);
    hide Installed, Image, Imaged;
  }

  lemma EntryWritten(m: Memory, slot: nat, org: nat, newFunc: nat, w: seq<Byte>, ds: seq<Insn>, delta: int)
    requires Holds(m, slot, org, newFunc, w, ds, delta)
    ensures Has(m, org, EntryJump(slot, org))
  {
    hide Decodes, Saved, Image, Imaged, Bounce, Encode, EntryJump;
  }

  /** Entries a and b less than five bytes apart, in either order, patched first a then b and
      restored first a then b: the code comes back just when the jump at a happened to agree
      with the code it hid where the two overlap. */
  lemma OverlapRestored(m: Memory, a: nat, b: nat, slotA: nat, slotB: nat)
    requires a != b && a < b + JMP_LEN && b < a + JMP_LEN && a + JMP_LEN <= |m| && b + JMP_LEN <= |m|
    ensures var ja, jb := EntryJump(slotA, a), EntryJump(slotB, b);
            var m1 := Written(m, a, ja);
            var m2 := Written(m1, b, jb);
            var m3 := Written(m2, a, m[a..a + JMP_LEN]);
            Written(m3, b, m1[b..b + JMP_LEN]) == m <==>
            forall k :: a <= k < a + JMP_LEN && b <= k < b + JMP_LEN ==> ja[k - a] == m[k]
  {
    hide EntryJump;
    var ja, jb := EntryJump(slotA, a), EntryJump(slotB, b);
    var m1 := Written(m, a, ja);
    var m2 := Written(m1, b, jb);
    var m3 := Written(m2, a, m[a..a + JMP_LEN]);
    var m4 := Written(m3, b, m1[b..b + JMP_LEN]);
    hide Written;
    OverlapBytes(m, m1, m2, m3, m4, a, b, ja, jb);
  }

  /** Restored in the reverse order, as hooks in different blocks can be, the code always comes
      back. */
  lemma OverlapReversed(m: Memory, a: nat, b: nat, slotA: nat, slotB: nat)
    requires a + JMP_LEN <= |m| && b + JMP_LEN <= |m|
    ensures var m1 := Written(m, a, EntryJump(slotA, a));
            var m2 := Written(m1, b, EntryJump(slotB, b));
            var m3 := Written(m2, b, m1[b..b + JMP_LEN]);
            m3 == m1 && Written(m3, a, m[a..a + JMP_LEN]) == m
  {
    hide EntryJump, Written;
    var m1 := Written(m, a, EntryJump(slotA, a));
    RestoredAtOnce(m, a, EntryJump(slotA, a));
    RestoredAtOnce(m1, b, EntryJump(slotB, b));
  }

  lemma RestoredAtOnce(m: Memory, a: nat, b: seq<Byte>)
    requires a + |b| <= |m|
    ensures |Written(m, a, b)| == |m| && Written(Written(m, a, b), a, m[a..a + |b|]) == m
  {
    hide Written;
    var m', old' := Written(m, a, b), m[a..a + |b|];
    WrittenAt(m, a, b);
    WrittenAt(m', a, old');
    assert forall k :: 0 <= k < |m| ==> Written(m', a, old')[k] == m[k];
  }

  /** Entries two bytes apart in code of nothing but 90, slots 0x1000 bytes below: the code does
      not come back. */
  lemma OverlapLost(m: Memory, a: nat)
    requires 0x2000 <= a && a + 7 <= |m| && forall k :: a <= k < a + 7 ==> m[k] == 0x90
    ensures var m1 := Written(m, a, EntryJump(a - 0x1000, a));
            var m2 := Written(m1, a + 2, EntryJump(a - 0x1000 + SLOT_SIZE, a + 2));
            var m3 := Written(m2, a, m[a..a + JMP_LEN]);
            Written(m3, a + 2, m1[a + 2..a + 7]) != m
  {
    var j := EntryJump(a - 0x1000, a);
    OverlapRestored(m, a, a + 2, a - 0x1000, a - 0x1000 + SLOT_SIZE);
    HighBytes();
    assert j[4] == Enc32(BOUNCE_AT - 0x1000 - 5)[3] == 0xFF;
    assert j[a + 4 - a] != m[a + 4];
    hide EntryJump, Written, Enc32;
  }

  lemma HighBytes()
    ensures Enc32(BOUNCE_AT - 0x1000 - 5)[3] == 0xFF
  {
    var u := (BOUNCE_AT - 0x1000 - 5) % TWO32;
    assert u == 0xFFFF_F00F;
    assert Encode(1, 0xFF)[0] == 0xFF && Encode(2, 0xFFFF)[1] == Encode(1, 0xFF)[0];
    assert Encode(3, 0xFF_FFF0)[2] == Encode(2, 0xFFFF)[1] && Encode(4, u)[3] == Encode(3, 0xFF_FFF0)[2];
  }

  /** Where both entries lie, the first jump is left. */
  lemma OverlapBytes(m: Memory, m1: Memory, m2: Memory, m3: Memory, m4: Memory, a: nat, b: nat,
                     ja: seq<Byte>, jb: seq<Byte>)
    requires a != b && a < b + JMP_LEN && b < a + JMP_LEN && a + JMP_LEN <= |m| && b + JMP_LEN <= |m|
    requires |ja| == |jb| == JMP_LEN && m1 == Written(m, a, ja) && m2 == Written(m1, b, jb)
    requires m3 == Written(m2, a, m[a..a + JMP_LEN]) && m4 == Written(m3, b, m1[b..b + JMP_LEN])
    ensures |m4| == |m|
    ensures forall k :: 0 <= k < |m| ==>
              m4[k] == if a <= k < a + JMP_LEN && b <= k < b + JMP_LEN then ja[k - a] else m[k]
  {
    hide Written;
    WrittenAt(m, a, ja);
    WrittenAt(m1, b, jb);
    WrittenAt(m2, a, m[a..a + JMP_LEN]);
    WrittenAt(m3, b, m1[b..b + JMP_LEN]);
    forall k | 0 <= k < |m|
      ensures m4[k] == if a <= k < a + JMP_LEN && b <= k < b + JMP_LEN then ja[k - a] else m[k]
    {
      if b <= k < b + JMP_LEN {
        assert m4[k] == m1[b..b + JMP_LEN][k - b] == m1[k];
      } else if a <= k < a + JMP_LEN {
        assert m3[k] == m[a..a + JMP_LEN][k - a] == m[k];
      }
    }
  }

  lemma WrittenAt(m: Memory, a: nat, b: seq<Byte>)
    requires a + |b| <= |m|
    ensures |Written(m, a, b)| == |m|
    ensures forall k :: 0 <= k < |m| ==> Written(m, a, b)[k] == if a <= k < a + |b| then b[k - a] else m[k]
  {
    hide Written;
    var m' := Written(m, a, b);
    assert Written(m, a, b) == m[..a] + b + m[a + |b|..] by { WrittenParts(m, a, b); }
  }

  lemma WrittenParts(m: Memory, a: nat, b: seq<Byte>)
    requires a + |b| <= |m|
    ensures Written(m, a, b) == m[..a] + b + m[a + |b|..]
  {
  }
}
