/** One hook: the trampoline, the bounce and the saved entry written into a slot, and the jump
    written over the entry of the function. */
module Slot {
  import opened Bytes
  import opened Isa
  import opened Prologue
  import opened Fixups

  // layout of a TRAMPOLINE record
  const SLOT_SIZE: nat := 64
  const TRAMPOLINE_LEN: nat := 20
  const BOUNCE_AT: nat := 20
  const ORG_CODE_AT: nat := 36
  const ADDR_AT: nat := 48
  const RECORD_END: nat := 56

  const INSTRUCTION_BOUNCE: seq<Byte> :=
    [0xFF, 0x25, 0, 0, 0, 0, 0x78, 0x56, 0x34, 0x12, 0x78, 0x56, 0x34, 0x12]

  /** jmp [rip+0] and the address it jumps to. */
  function Bounce(newFunc: nat): (b: seq<Byte>)
    ensures |b| == 14
  {
    [0xFF, 0x25, 0, 0, 0, 0] + Encode(8, newFunc)
  }

  /** The jump from the entry of the function to the bounce of its slot. */
  function EntryJump(slot: nat, org: nat): (b: seq<Byte>)
    ensures |b| == 5
  {
    [E9] + Enc32(slot + BOUNCE_AT - org - 5)
  }

  /** A disassembly of the code bytes w; the last instruction is perhaps cut off. */
  predicate Decodes(ds: seq<Insn>, w: seq<Byte>) {
    && Listing(ds) && BitsAll(ds) == w
    && forall k :: 0 <= k < |ds| && ds[k].RipRel? ==> |ds[k].pre| >= 2
  }

  lemma {:induction false} BitsOfPrefix(p: seq<Insn>, ds: seq<Insn>)
    requires p <= ds
    ensures BitsAll(p) <= BitsAll(ds)
  {
    hide Bits;
    assert ds == p + ds[|p|..];
    BitsAppend(p, ds[|p|..]);
  }

  lemma {:induction false} TextMeansRip(p: seq<Insn>)
    requires RipText(p) != NULL_RIP
    ensures exists k :: 0 <= k < |p| && p[k].RipRel?
  {
    if p[|p| - 1].RipRel? {
    } else {
      TextMeansRip(p[..|p| - 1]);
      var k :| 0 <= k < |p| - 1 && p[..|p| - 1][k].RipRel?;
      assert p[k].RipRel?;
    }
  }

  /** What the scan of decodable code hands on: the saved bytes are its instructions, and every
      fix-up stays inside the copy. */
  lemma ScannedCode(ds: seq<Insn>, w: seq<Byte>)
    requires Decodes(ds, w)
    ensures |w| == MAX_LEN_TO_DISASSEMBLE && WithJmp(ds) <= JMP_LEN && WithJmp(ds) <= Saved(ds) + 1
    ensures Imaged(ds) && Saved(ds) < MAX_LEN_TO_DISASSEMBLE
    ensures !Filled(ds) ==> BitsAll(Take(ds, 0)) <= w && JMP_LEN <= Saved(ds)
    ensures Saved(ds) == 0 <==> Filled(ds)
    ensures RipText(Take(ds, 0)) != NULL_RIP && !Filled(ds) ==> 6 <= Saved(ds)
  {
    hide Bits;
    var p := Take(ds, 0);
    TakeBounds(ds, 0);
    SavedBounds(ds);
    BitsOfPrefix(p, ds);
    if RipText(p) != NULL_RIP {
      TextMeansRip(p);
      var k :| 0 <= k < |p| && p[k].RipRel?;
      PartIsShorter(p, k);
      RipAtLeast6(p[k]);
    }
    if |p| >= 2 {
      PartIsShorter(p[..|p| - 1], |p| - 2);
    }
  }

  lemma RipAtLeast6(i: Insn)
    requires i.RipRel? && |i.pre| >= 2
    ensures Len(i) >= 6
  {
  }

  /** Only addresses in [lo, hi) may differ. */
  ghost predicate SameOutside(m: Memory, m': Memory, lo: nat, hi: nat) {
    |m| == |m'| && forall a :: 0 <= a < |m| && !(lo <= a < hi) ==> m'[a] == m[a]
  }

  lemma SliceOfSlice(m: Memory, base: nat, n: nat, j: nat, k: nat)
    requires j <= k <= n && base + n <= |m|
    ensures m[base..base + n][j..k] == m[base + j..base + k]
  {
    var l, r := m[base..base + n][j..k], m[base + j..base + k];
    assert forall i :: 0 <= i < k - j ==> l[i] == m[base + j + i] && r[i] == m[base + j + i];
  }

  /** *p_int += delta, seen as a change of the n bytes from base on. */
  method AddInPlace(mem: array<Byte>, base: nat, j: nat, n: nat, delta: int)
    requires j + 4 <= n && base + n <= mem.Length
    modifies mem
    ensures mem[base..base + n] == AddAt(old(mem[base..base + n]), j, delta)
    ensures SameOutside(old(mem[..]), mem[..], base, base + n)
  {
    hide Enc32, Dec32, Written;
    ghost var m, t := mem[..], mem[base..base + n];
    SliceOfSlice(mem[..], base, n, j, j + 4);
    assert mem[..][base..base + n] == t;
    assert mem[..][base + j..base + j + 4] == mem[base + j..base + j + 4];
    var field := Enc32(Dec32(mem[base + j..base + j + 4]) + delta);
    Poke(mem, base + j, field);
    WrittenInside(m, base, n, j, field);
    WrittenOutside(m, base + j, field);
    assert mem[..][base..base + n] == mem[base..base + n];
  }

  lemma WrittenInside(m: Memory, base: nat, n: nat, j: nat, b: seq<Byte>)
    requires j + |b| <= n && base + n <= |m|
    ensures |Written(m, base + j, b)| == |m|
    ensures var t := m[base..base + n]; Written(m, base + j, b)[base..base + n] == t[..j] + b + t[j + |b|..]
  {
  }

  /** memcpy of the saved code, then the jump back behind it. */
  method CopyCode(mem: array<Byte>, slot: nat, org: nat, saved: nat, delta: int)
    requires slot + saved + 5 <= mem.Length && org + saved <= mem.Length
    requires slot + saved + 5 <= org || org + saved <= slot
    modifies mem
    ensures mem[slot..slot + saved + 5] == old(mem[org..org + saved]) + Bits(JmpRel(delta - 5))
    ensures SameOutside(old(mem[..]), mem[..], slot, slot + saved + 5)
  {
    hide Enc32, Written, SameOutside;
    ghost var m, code, back := mem[..], mem[org..org + saved], [E9] + Enc32(delta - 5);
    Poke(mem, slot, mem[org..org + saved]);
    Poke(mem, slot + saved, [E9] + Enc32(delta - 5));
    TwoWritten(m, slot, code, back);
    assert mem[..][slot..slot + saved + 5] == mem[slot..slot + saved + 5];
  }

  lemma TwoWritten(m: Memory, a: nat, b: seq<Byte>, c: seq<Byte>)
    requires a + |b| + |c| <= |m|
    ensures |Written(m, a, b)| == |m|
    ensures var m', end := Written(Written(m, a, b), a + |b|, c), a + |b| + |c|;
            m'[a..end] == b + c && SameOutside(m, m', a, end)
  {
  }

  /** The scan for the rip displacement: three windows in the six bytes that end at `end`. */
  method FixWindows(mem: array<Byte>, end: nat, rip: int, delta: int)
    requires 6 <= end <= mem.Length
    modifies mem
    ensures mem[end - 6..end] == Windows(old(mem[end - 6..end]), 6, rip, delta)
    ensures SameOutside(old(mem[..]), mem[..], end - 6, end)
  {
    hide Dec32, AddAt, Windows;
    var j, base := 0, end - 6;
    ghost var m, t := mem[..], mem[base..end];
    while j <= 2
      invariant 0 <= j <= 3
      invariant mem[base..end] == WindowsUpTo(t, j, rip, delta)
      invariant SameOutside(m, mem[..], base, end)
    {
      SliceOfSlice(mem[..], base, 6, j, j + 4);
      assert mem[..][base..end] == mem[base..end];
      assert mem[..][base + j..base + j + 4] == mem[base + j..base + j + 4];
      if Dec32(mem[base + j..base + j + 4]) == rip {
        AddInPlace(mem, base, j, 6, delta);
      }
      j := j + 1;
    }
    AllWindows(t, rip, delta);
  }

  /** Only the six bytes in front of the code's end change. */
  lemma InsideOnly(m: Memory, m': Memory, slot: nat, saved: nat)
    requires 6 <= saved && slot + saved + 5 <= |m| && SameOutside(m, m', slot + saved - 6, slot + saved)
    ensures var t, t' := m[slot..slot + saved + 5], m'[slot..slot + saved + 5];
            && t[saved - 6..saved] == m[slot + saved - 6..slot + saved]
            && t' == t[..saved - 6] + m'[slot + saved - 6..slot + saved] + t[saved..]
    ensures slot >= 6 ==> m'[slot - 6..slot] == m[slot - 6..slot]
  {
    var x, y, z := slot + saved - 6, slot + saved, slot + saved + 5;
    SliceOfSlice(m, slot, saved + 5, saved - 6, saved);
    SliceOfSlice(m, slot, saved + 5, 0, saved - 6);
    SliceOfSlice(m, slot, saved + 5, saved, saved + 5);
    Kept(m, m', x, y, slot, x);
    Kept(m, m', x, y, y, z);
    assert m'[slot..z] == m'[slot..x] + m'[x..y] + m'[y..z];
  }

  /** The windows, wherever they are: at the end of the code, or in front of the slot if nothing
      is saved. */
  method FixRip(mem: array<Byte>, slot: nat, saved: nat, rip: int, delta: int)
    requires saved == 0 || 6 <= saved
    requires 6 <= slot && slot + saved + 5 <= mem.Length
    modifies mem
    ensures mem[slot..slot + saved + 5] ==
            if saved == 0 then old(mem[slot..slot + saved + 5])
            else Windows(old(mem[slot..slot + saved + 5]), saved, rip, delta)
    ensures mem[slot - 6..slot] ==
            if saved == 0 then Windows(old(mem[slot - 6..slot]), 6, rip, delta) else old(mem[slot - 6..slot])
    ensures SameOutside(old(mem[..]), mem[..], slot - 6, slot + saved + 5)
  {
    hide Windows;
    ghost var m := mem[..];
    FixWindows(mem, slot + saved, rip, delta);
    if saved > 0 {
      InsideOnly(m, mem[..], slot, saved);
      WindowsLocal(m[slot..slot + saved + 5], saved, rip, delta);
    } else {
      Kept(m, mem[..], slot - 6, slot, slot, slot + 5);
    }
  }

  /** All fix-ups. With nothing saved the windows are in front of the slot. */
  method FixUp(mem: array<Byte>, slot: nat, saved: nat, rip: int, withJmp: int, delta: int)
    requires (rip != NULL_RIP ==> saved == 0 || 6 <= saved) && withJmp <= saved + 1
    requires 6 <= slot && slot + saved + 5 <= mem.Length
    modifies mem
    ensures mem[slot..slot + saved + 5] ==
            FixBytes(old(mem[slot..slot + saved + 5]), saved, if saved == 0 then NULL_RIP else rip, withJmp, delta)
    ensures mem[slot - 6..slot] ==
            if saved == 0 && rip != NULL_RIP then Windows(old(mem[slot - 6..slot]), 6, rip, delta)
            else old(mem[slot - 6..slot])
    ensures SameOutside(old(mem[..]), mem[..], slot - 6, slot + saved + 5)
  {
    hide Windows, AddAt;
    if rip != NULL_RIP {
      FixRip(mem, slot, saved, rip, delta);
    }
    ghost var m := mem[..];
    FixJumps(mem, slot, saved, withJmp, delta);
    Kept(m, mem[..], slot, slot + saved + 5, slot - 6, slot);
  }

  method FixJumps(mem: array<Byte>, slot: nat, saved: nat, withJmp: int, delta: int)
    requires withJmp <= saved + 1 && slot + saved + 5 <= mem.Length
    modifies mem
    ensures mem[slot..slot + saved + 5] ==
            FixBytes(old(mem[slot..slot + saved + 5]), saved, NULL_RIP, withJmp, delta)
    ensures SameOutside(old(mem[..]), mem[..], slot, slot + saved + 5)
  {
    hide Windows, AddAt;
    if withJmp > 0 {
      AddInPlace(mem, slot, withJmp, saved + 5, delta);
    }
    assert mem[slot..slot + saved + 5][0] == mem[slot];
    if mem[slot] == E9 {
      AddInPlace(mem, slot, 1, saved + 5, delta);
    }
  }

  /** The copied prologue with its jump back and fix-ups, in place. */
  method WriteTrampoline(mem: array<Byte>, slot: nat, org: nat, ds: seq<Insn>, delta: int)
    returns (saved: nat)
    requires 6 <= slot && slot + SLOT_SIZE <= mem.Length && org + MAX_LEN_TO_DISASSEMBLE <= mem.Length
    requires Decodes(ds, mem[org..org + MAX_LEN_TO_DISASSEMBLE]) && delta == org - slot
    requires slot + SLOT_SIZE <= org || org + MAX_LEN_TO_DISASSEMBLE <= slot
    modifies mem
    ensures saved == Saved(ds) < MAX_LEN_TO_DISASSEMBLE && Imaged(ds)
    ensures mem[slot..slot + saved + 5] == Image(ds, delta)
    ensures mem[slot - 6..slot] == Strayed(old(mem[slot - 6..slot]), ds, delta)
    ensures SameOutside(old(mem[..]), mem[..], slot - 6, slot + saved + 5)
  {
    hide Bits, BitsAll, Take, RipText, JumpFix, FixBytes, Decodes, Image, Imaged, Windows;
    ghost var w := mem[org..org + MAX_LEN_TO_DISASSEMBLE];
    ScannedCode(ds, w);
    var rip, withJmp;
    saved, rip, withJmp := ScanDecoded(ds, w);
    ghost var code := mem[org..org + saved];
    SliceOfSlice(mem[..], org, MAX_LEN_TO_DISASSEMBLE, 0, saved);
    assert mem[..][org..org + MAX_LEN_TO_DISASSEMBLE] == w && mem[..][org..org + saved] == code;
    ImageOf(ds, w, code, saved, rip, withJmp, delta);
    ghost var m := mem[..];
    CopyCode(mem, slot, org, saved, delta);
    Kept(m, mem[..], slot, slot + saved + 5, slot - 6, slot);
    assert m[slot - 6..slot] == old(mem[slot - 6..slot]);
    FixUp(mem, slot, saved, rip, withJmp, delta);
  }

  /** The image, from what the scan has found. */
  lemma ImageOf(ds: seq<Insn>, w: seq<Byte>, code: seq<Byte>, saved: nat, rip: int, withJmp: int, delta: int)
    requires Decodes(ds, w)
    requires saved == Saved(ds) <= |w| && rip == RipText(Take(ds, 0)) && withJmp == WithJmp(ds) && code == w[..saved]
    ensures Imaged(ds) && |code| == saved && (rip != NULL_RIP ==> saved == 0 || 6 <= saved) && withJmp <= saved + 1
    ensures Image(ds, delta) ==
            FixBytes(code + Bits(JmpRel(delta - 5)), saved, if saved == 0 then NULL_RIP else rip, withJmp, delta)
    ensures FilledByRip(ds) <==> saved == 0 && rip != NULL_RIP
  {
    ScannedCode(ds, w);
    FilledTakesAll(ds);
    hide Bits, BitsAll, Take, RipText, JumpFix, FixBytes, Decodes;
    if Filled(ds) {
      assert code + Bits(JmpRel(delta - 5)) == Bits(JmpRel(delta - 5));
    } else {
      assert code == BitsAll(Take(ds, 0));
    }
  }

  lemma FilledTakesAll(ds: seq<Insn>)
    ensures Filled(ds) ==> Take(ds, 0) == ds
  {
  }

  method ScanDecoded(ds: seq<Insn>, ghost w: seq<Byte>) returns (saved: nat, rip: int, withJmp: int)
    requires Decodes(ds, w)
    ensures saved == Saved(ds) && rip == RipText(Take(ds, 0)) && withJmp == WithJmp(ds)
  {
    saved, rip, withJmp := Scan(ds);
  }

  /** The windows below j, in turn. */
  function WindowsUpTo(t: seq<Byte>, j: int, r: int, delta: int): (w: seq<Byte>)
    requires |t| == 6 && 0 <= j <= 3
    ensures |w| == |t|
  {
    var w1 := if j > 0 then Window(t, 0, r, delta) else t;
    var w2 := if j > 1 then Window(w1, 1, r, delta) else w1;
    if j > 2 then Window(w2, 2, r, delta) else w2
  }

  lemma AllWindows(t: seq<Byte>, r: int, delta: int)
    requires |t| == 6
    ensures WindowsUpTo(t, 3, r, delta) == Windows(t, 6, r, delta)
  {
    hide Window;
  }

  // ----- the whole record

  /** What one pass of the installation loop leaves for the code w found at org. */
  ghost predicate Holds(m: Memory, slot: nat, org: nat, newFunc: nat, w: seq<Byte>, ds: seq<Insn>, delta: int) {
    && slot + SLOT_SIZE <= |m| && org + 5 <= |m| && Decodes(ds, w) && |w| == MAX_LEN_TO_DISASSEMBLE
    && delta == org - slot
    && m[slot + ADDR_AT..slot + RECORD_END] == Encode(8, org)
    && m[slot + ORG_CODE_AT..slot + ORG_CODE_AT + 5] == w[..5]
    && m[org..org + 5] == EntryJump(slot, org)
    && Imaged(ds) && Saved(ds) < MAX_LEN_TO_DISASSEMBLE
    && m[slot..slot + Saved(ds) + 5] == Image(ds, delta)
    && forall k :: 0 <= k < 14 && k >= Saved(ds) - MAX_INSN_LEN ==> m[slot + BOUNCE_AT + k] == Bounce(newFunc)[k]
  }

  /** The memory differs only in the n bytes at lo and in the entry. */
  ghost predicate DiffersIn(m: Memory, m': Memory, lo: int, n: nat, org: nat) {
    |m| == |m'| &&
    forall a :: 0 <= a < |m| && !(lo <= a < lo + n) && !(org <= a < org + 5) ==> m'[a] == m[a]
  }

  /** The memory differs only in the slot and the entry. */
  ghost predicate Frame(m: Memory, m': Memory, slot: nat, org: nat) { DiffersIn(m, m', slot, SLOT_SIZE, org) }

  /** What the six bytes become. */
  ghost predicate Front(m: Memory, m': Memory, slot: nat, ds: seq<Insn>, delta: int) {
    6 <= slot <= |m| == |m'| && m'[slot - 6..slot] == Strayed(m[slot - 6..slot], ds, delta)
  }

  method WriteBounce(mem: array<Byte>, slot: nat, newFunc: nat)
    requires slot + SLOT_SIZE <= mem.Length
    modifies mem
    ensures mem[slot + BOUNCE_AT..slot + BOUNCE_AT + 14] == Bounce(newFunc)
    ensures SameOutside(old(mem[..]), mem[..], slot + BOUNCE_AT, slot + BOUNCE_AT + 14)
  {
    hide Encode;
    Poke(mem, slot + BOUNCE_AT, INSTRUCTION_BOUNCE);
    Poke(mem, slot + BOUNCE_AT + 6, Encode(8, newFunc));
    assert mem[slot + BOUNCE_AT..slot + BOUNCE_AT + 14] == INSTRUCTION_BOUNCE[..6] + Encode(8, newFunc);
  }

  /** One hook: record, trampoline, saved entry, and the jump over the entry. */
  method WriteSlot(mem: array<Byte>, slot: nat, org: nat, newFunc: nat, ds: seq<Insn>, delta: int)
    returns (saved: nat)
    requires 6 <= slot && slot + SLOT_SIZE <= mem.Length && org + MAX_LEN_TO_DISASSEMBLE <= mem.Length
    requires Decodes(ds, mem[org..org + MAX_LEN_TO_DISASSEMBLE]) && delta == org - slot
    requires slot + SLOT_SIZE <= org || org + MAX_LEN_TO_DISASSEMBLE <= slot
    modifies mem
    ensures Holds(mem[..], slot, org, newFunc, old(mem[org..org + MAX_LEN_TO_DISASSEMBLE]), ds, delta)
    ensures DiffersIn(old(mem[..]), mem[..], slot - 6, SLOT_SIZE + 6, org)
    ensures org + 5 <= slot - 6 || slot <= org ==> Front(old(mem[..]), mem[..], slot, ds, delta)
    ensures !FilledByRip(ds) ==> Frame(old(mem[..]), mem[..], slot, org)
    ensures saved == Saved(ds)
  {
    hide Decodes, Saved, Image, Imaged, Strayed, Encode, Bounce, EntryJump, SameOutside, Written;
    ghost var m0 := mem[..];
    Poke(mem, slot + ADDR_AT, Encode(8, org));
    ghost var m1 := mem[..];
    WriteBounce(mem, slot, newFunc);
    ghost var m2 := mem[..];
    Stage12(m0, m1, m2, slot, org, newFunc);
    saved := WriteTrampoline(mem, slot, org, ds, delta);
    ghost var m3 := mem[..];
    Poke(mem, slot + ORG_CODE_AT, mem[org..org + 5]);
    ghost var m4 := mem[..];
    Poke(mem, org, EntryJump(slot, org));
    Stages(m0, m2, m3, m4, mem[..], slot, org, newFunc, ds, delta, saved);
  }

  lemma Stages(m0: Memory, m2: Memory, m3: Memory, m4: Memory, m5: Memory, slot: nat, org: nat, newFunc: nat,
               ds: seq<Insn>, delta: int, saved: nat)
    requires HeadWritten(m0, m2, slot, org, newFunc) && delta == org - slot
    requires slot + SLOT_SIZE <= org || org + MAX_LEN_TO_DISASSEMBLE <= slot
    requires Decodes(ds, m0[org..org + MAX_LEN_TO_DISASSEMBLE])
    requires saved == Saved(ds) < MAX_LEN_TO_DISASSEMBLE && Imaged(ds)
    requires SameOutside(m2, m3, slot - 6, slot + saved + 5)
    requires m3[slot..slot + saved + 5] == Image(ds, delta)
    requires m3[slot - 6..slot] == Strayed(m2[slot - 6..slot], ds, delta)
    requires m4 == Written(m3, slot + ORG_CODE_AT, m3[org..org + 5])
    requires m5 == Written(m4, org, EntryJump(slot, org))
    ensures Holds(m5, slot, org, newFunc, m0[org..org + MAX_LEN_TO_DISASSEMBLE], ds, delta)
    ensures DiffersIn(m0, m5, slot - 6, SLOT_SIZE + 6, org)
    ensures org + 5 <= slot - 6 || slot <= org ==> Front(m0, m5, slot, ds, delta)
    ensures !FilledByRip(ds) ==> Frame(m0, m5, slot, org)
  {
    hide Decodes, Saved, Image, Imaged, Strayed, EntryJump, Written, Holds, DiffersIn, Front, FilledByRip;
    Stage345(m0, m2, m3, m4, m5, slot, org, newFunc, ds, delta, saved);
    StageFront(m0, m2, m3, m4, m5, slot, org, ds, delta);
    if !FilledByRip(ds) {
      NotStrayed(m2[slot - 6..slot], ds, delta);
      FrontStays(m0, m2, m3, m4, m5, slot, org, saved);
    }
  }

  lemma NotStrayed(f: seq<Byte>, ds: seq<Insn>, delta: int)
    requires |f| == 6 && !FilledByRip(ds)
    ensures Strayed(f, ds, delta) == f
  {
  }

  lemma Kept(m: Memory, m': Memory, lo: nat, hi: nat, a: nat, b: nat)
    requires SameOutside(m, m', lo, hi) && a <= b <= |m| && (b <= lo || hi <= a)
    ensures m'[a..b] == m[a..b]
  {
  }

  lemma WrittenOutside(m: Memory, a: nat, b: seq<Byte>)
    requires a + |b| <= |m|
    ensures SameOutside(m, Written(m, a, b), a, a + |b|)
  {
  }

  /** After the address and the bounce. */
  ghost predicate HeadWritten(m0: Memory, m2: Memory, slot: nat, org: nat, newFunc: nat) {
    && slot + SLOT_SIZE <= |m0| && SameOutside(m0, m2, slot, slot + SLOT_SIZE)
    && m2[slot + ADDR_AT..slot + RECORD_END] == Encode(8, org)
    && m2[slot + BOUNCE_AT..slot + BOUNCE_AT + 14] == Bounce(newFunc)
    && 6 <= slot && m2[slot - 6..slot] == m0[slot - 6..slot] && org + MAX_LEN_TO_DISASSEMBLE <= |m0|
    && m2[org..org + MAX_LEN_TO_DISASSEMBLE] == m0[org..org + MAX_LEN_TO_DISASSEMBLE]
  }

  lemma Stage12(m0: Memory, m1: Memory, m2: Memory, slot: nat, org: nat, newFunc: nat)
    requires 6 <= slot && slot + SLOT_SIZE <= |m0| && org + MAX_LEN_TO_DISASSEMBLE <= |m0|
    requires slot + SLOT_SIZE <= org || org + MAX_LEN_TO_DISASSEMBLE <= slot
    requires m1 == Written(m0, slot + ADDR_AT, Encode(8, org))
    requires SameOutside(m1, m2, slot + BOUNCE_AT, slot + BOUNCE_AT + 14)
    requires m2[slot + BOUNCE_AT..slot + BOUNCE_AT + 14] == Bounce(newFunc)
    ensures HeadWritten(m0, m2, slot, org, newFunc)
  {
    hide Encode, Bounce;
    WrittenOutside(m0, slot + ADDR_AT, Encode(8, org));
    Kept(m1, m2, slot + BOUNCE_AT, slot + BOUNCE_AT + 14, slot + ADDR_AT, slot + RECORD_END);
    Kept(m0, m2, slot, slot + SLOT_SIZE, org, org + MAX_LEN_TO_DISASSEMBLE);
    Kept(m0, m2, slot, slot + SLOT_SIZE, slot - 6, slot);
  }

  lemma StageFront(m0: Memory, m2: Memory, m3: Memory, m4: Memory, m5: Memory, slot: nat, org: nat,
                   ds: seq<Insn>, delta: int)
    requires 6 <= slot && slot + SLOT_SIZE <= |m0| == |m2| == |m3| && org + MAX_LEN_TO_DISASSEMBLE <= |m0|
    requires slot + SLOT_SIZE <= org || org + MAX_LEN_TO_DISASSEMBLE <= slot
    requires m2[slot - 6..slot] == m0[slot - 6..slot] && m3[slot - 6..slot] == Strayed(m2[slot - 6..slot], ds, delta)
    requires m4 == Written(m3, slot + ORG_CODE_AT, m3[org..org + 5]) && m5 == Written(m4, org, EntryJump(slot, org))
    ensures org + 5 <= slot - 6 || slot <= org ==> Front(m0, m5, slot, ds, delta)
  {
    hide Strayed, EntryJump, Written;
    WrittenOutside(m3, slot + ORG_CODE_AT, m3[org..org + 5]);
    WrittenOutside(m4, org, EntryJump(slot, org));
    Kept(m3, m4, slot + ORG_CODE_AT, slot + ORG_CODE_AT + 5, slot - 6, slot);
    if org + 5 <= slot - 6 || slot <= org {
      Kept(m4, m5, org, org + 5, slot - 6, slot);
    }
  }

  /** Nothing in front of the slot changes, unless the entry itself is there. */
  lemma FrontStays(m0: Memory, m2: Memory, m3: Memory, m4: Memory, m5: Memory, slot: nat, org: nat, saved: nat)
    requires 6 <= slot && slot + SLOT_SIZE <= |m0| && org + MAX_LEN_TO_DISASSEMBLE <= |m0|
    requires SameOutside(m0, m2, slot, slot + SLOT_SIZE) && saved < MAX_LEN_TO_DISASSEMBLE
    requires SameOutside(m2, m3, slot - 6, slot + saved + 5) && m3[slot - 6..slot] == m2[slot - 6..slot]
    requires m4 == Written(m3, slot + ORG_CODE_AT, m3[org..org + 5]) && m5 == Written(m4, org, EntryJump(slot, org))
    ensures Frame(m0, m5, slot, org)
  {
    hide EntryJump, Written;
    WrittenOutside(m3, slot + ORG_CODE_AT, m3[org..org + 5]);
    WrittenOutside(m4, org, EntryJump(slot, org));
    forall a | slot - 6 <= a < slot ensures m3[a] == m2[a] {
      assert m3[slot - 6..slot][a - (slot - 6)] == m3[a] && m2[slot - 6..slot][a - (slot - 6)] == m2[a];
    }
  }

  /** The window is filled by a rip-relative instruction, and four of the six bytes in front of the
      slot happen to be its displacement. */
  predicate Struck(f: seq<Byte>, ds: seq<Insn>)
    requires |f| == 6
  {
    FilledByRip(ds) &&
    (Dec32(f[0..4]) == RipText(ds) || Dec32(f[1..5]) == RipText(ds) || Dec32(f[2..6]) == RipText(ds))
  }

  /** The six bytes in front of the slot change exactly if they are struck by a delta that is not
      nothing in 32 bits. */
  lemma StrayExactly(f: seq<Byte>, ds: seq<Insn>, delta: int)
    requires |f| == 6
    ensures Strayed(f, ds, delta) != f <==> Struck(f, ds) && delta % TWO32 != 0
  {
    hide Dec32, Enc32, LowZeros, RipText;
    if FilledByRip(ds) {
      var r := RipText(ds);
      if delta % TWO32 == 0 {
        WindowOfNothing(f, 0, r, delta);
        WindowOfNothing(f, 1, r, delta);
        WindowOfNothing(f, 2, r, delta);
      } else {
        StrayTouches(f, r, delta);
      }
    }
  }

  lemma StrayTouches(f: seq<Byte>, r: int, delta: int)
    requires |f| == 6 && delta % TWO32 != 0
    ensures Windows(f, 6, r, delta) != f <==> Dec32(f[0..4]) == r || Dec32(f[1..5]) == r || Dec32(f[2..6]) == r
  {
    hide Dec32, Enc32, LowZeros;
    var f1 := Window(f, 0, r, delta);
    var f2 := Window(f1, 1, r, delta);
    WindowTouches(f, 0, r, delta);
    WindowTouches(f1, 1, r, delta);
    WindowTouches(f2, 2, r, delta);
  }

  lemma WindowOfNothing(f: seq<Byte>, j: nat, r: int, delta: int)
    requires j + 4 <= |f| && delta % TWO32 == 0
    ensures Window(f, j, r, delta) == f
  {
    hide Dec32, Enc32;
    NothingAdded(f[j..j + 4], delta);
    assert f == f[..j] + f[j..j + 4] + f[j + 4..];
  }

  lemma NothingAdded(b: seq<Byte>, delta: int)
    requires |b| == 4 && delta % TWO32 == 0
    ensures Enc32(Dec32(b) + delta) == b
  {
    hide Dec32, Encode;
    EncDec32(b);
    SameRemainder(Dec32(b), delta);
  }

  lemma SameRemainder(d: int, delta: int)
    requires delta % TWO32 == 0
    ensures (d + delta) % TWO32 == d % TWO32
  {
  }

  /** So restoring the entry brings back all memory outside the slot exactly if not. */
  lemma UndoneExactly(m: Memory, m': Memory, slot: nat, org: nat, ds: seq<Insn>, delta: int)
    requires DiffersIn(m, m', slot - 6, SLOT_SIZE + 6, org) && Front(m, m', slot, ds, delta)
    requires org + JMP_LEN <= |m| && slot + SLOT_SIZE <= |m|
    requires org + JMP_LEN <= slot - 6 || slot + SLOT_SIZE <= org
    ensures var m'' := Written(m', org, m[org..org + JMP_LEN]);
            SameOutside(m, m'', slot, slot + SLOT_SIZE) <==>
            !(Struck(m[slot - 6..slot], ds) && delta % TWO32 != 0)
  {
    var m'' := Written(m', org, m[org..org + JMP_LEN]);
    StrayExactly(m[slot - 6..slot], ds, delta);
    hide Struck, Strayed, Written;
    UndoneOutside(m, m', m'', slot, org);
  }

  lemma UndoneOutside(m: Memory, m': Memory, m'': Memory, slot: nat, org: nat)
    requires 6 <= slot && DiffersIn(m, m', slot - 6, SLOT_SIZE + 6, org)
    requires org + JMP_LEN <= |m| && slot + SLOT_SIZE <= |m| && m'' == Written(m', org, m[org..org + JMP_LEN])
    requires org + JMP_LEN <= slot - 6 || slot + SLOT_SIZE <= org
    ensures SameOutside(m, m'', slot, slot + SLOT_SIZE) <==> m'[slot - 6..slot] == m[slot - 6..slot]
  {
    hide Written;
    var f, f' := m[slot - 6..slot], m'[slot - 6..slot];
    forall a | 0 <= a < |m| && !(slot - 6 <= a < slot + SLOT_SIZE) ensures m''[a] == m[a] {
      assert org <= a < org + JMP_LEN ==> m''[org..org + JMP_LEN][a - org] == m[org..org + JMP_LEN][a - org];
    }
    assert forall k :: 0 <= k < 6 ==> f[k] == m[slot - 6 + k] && f'[k] == m'[slot - 6 + k] == m''[slot - 6 + k];
    if f == f' {
      forall a | slot - 6 <= a < slot ensures m''[a] == m[a] {
        assert f[a - (slot - 6)] == f'[a - (slot - 6)];
      }
    }
  }

  /** Such windows exist: nop, then mov [rip+1], imm32 behind 13 prefix bytes 66. */
  lemma FilledByRipExists()
    ensures var ds := [Plain([0x90]), RipRel(seq(13, _ => 0x66) + [0xC7, 0x05], 1, [0, 0, 0, 0])];
            Decodes(ds, BitsAll(ds)) && FilledByRip(ds)
  {
    hide Enc32;
    var ds := [Plain([0x90]), RipRel(seq(13, _ => 0x66) + [0xC7, 0x05], 1, [0, 0, 0, 0])];
    assert ds[1..] == [ds[1]];
    BitsOfOne(ds[1]);
    assert Len(ds[0]) == 1 && Len(ds[1]) == 23;
    assert BitsAll(ds) == Bits(ds[0]) + Bits(ds[1]);
    assert Take([ds[1]][1..], 24) == [];
    assert Take([ds[1]], 1) == [ds[1]] + Take([ds[1]][1..], 24);
    assert Take(ds, 0) == ds;
    NotOverridden(ds[1].pre);
  }

  lemma Stage345(m0: Memory, m2: Memory, m3: Memory, m4: Memory, m5: Memory, slot: nat, org: nat, newFunc: nat,
                 ds: seq<Insn>, delta: int, saved: nat)
    requires HeadWritten(m0, m2, slot, org, newFunc) && delta == org - slot
    requires slot + SLOT_SIZE <= org || org + MAX_LEN_TO_DISASSEMBLE <= slot
    requires Decodes(ds, m0[org..org + MAX_LEN_TO_DISASSEMBLE])
    requires saved == Saved(ds) < MAX_LEN_TO_DISASSEMBLE && Imaged(ds)
    requires SameOutside(m2, m3, slot - 6, slot + saved + 5)
    requires m3[slot..slot + saved + 5] == Image(ds, delta)
    requires m4 == Written(m3, slot + ORG_CODE_AT, m3[org..org + 5])
    requires m5 == Written(m4, org, EntryJump(slot, org))
    ensures Holds(m5, slot, org, newFunc, m0[org..org + MAX_LEN_TO_DISASSEMBLE], ds, delta)
    ensures DiffersIn(m0, m5, slot - 6, SLOT_SIZE + 6, org)
  {
    hide Decodes, Saved, Image, Imaged, Encode, Bounce, EntryJump, Written;
    WrittenOutside(m3, slot + ORG_CODE_AT, m3[org..org + 5]);
    WrittenOutside(m4, org, EntryJump(slot, org));
    var lo, end := slot - 6, slot + saved + 5;
    Kept(m2, m3, lo, end, org, org + 18);
    Kept(m2, m3, lo, end, slot + ADDR_AT, slot + RECORD_END);
    Kept(m3, m4, slot + ORG_CODE_AT, slot + ORG_CODE_AT + 5, slot + ADDR_AT, slot + RECORD_END);
    Kept(m4, m5, org, org + 5, slot + ADDR_AT, slot + RECORD_END);
    Kept(m4, m5, org, org + 5, slot + ORG_CODE_AT, slot + ORG_CODE_AT + 5);
    Kept(m3, m4, slot + ORG_CODE_AT, slot + ORG_CODE_AT + 5, slot, end);
    Kept(m4, m5, org, org + 5, slot, end);
    var w := m0[org..org + MAX_LEN_TO_DISASSEMBLE];
    assert m3[org..org + 5] == w[..5] by {
      assert m3[org..org + 18][..5] == m3[org..org + 5] && m2[org..org + 18][..5] == m2[org..org + 5];
      assert m2[org..org + MAX_LEN_TO_DISASSEMBLE][..5] == m2[org..org + 5];
    }
    forall k | 0 <= k < 14 && k >= saved - MAX_INSN_LEN
      ensures m5[slot + BOUNCE_AT + k] == Bounce(newFunc)[k]
    {
      assert m2[slot + BOUNCE_AT + k] == m2[slot + BOUNCE_AT..slot + BOUNCE_AT + 14][k];
    }
  }
}
