/** The displacement fix-ups of a copied prologue, and exactly when they relocate it. */
module Fixups {
  import opened Bytes
  import opened Isa
  import opened Prologue

  /** *p_int += delta at offset j, in 32-bit wrap-around. */
  function AddAt(t: seq<Byte>, j: int, delta: int): (r: seq<Byte>)
    requires 0 <= j && j + 4 <= |t|
    ensures |r| == |t|
    ensures forall i :: 0 <= i < |t| && !(j <= i < j + 4) ==> r[i] == t[i]
    ensures r[j..j + 4] == Enc32(Dec32(t[j..j + 4]) + delta)
  {
    t[..j] + Enc32(Dec32(t[j..j + 4]) + delta) + t[j + 4..]
  }

  /** Window j of the scan: four bytes equal to the displacement are taken to be it. */
  function Window(t: seq<Byte>, j: int, r: int, delta: int): (w: seq<Byte>)
    requires 0 <= j && j + 4 <= |t|
    ensures |w| == |t|
  {
    if Dec32(t[j..j + 4]) == r then AddAt(t, j, delta) else t
  }

  /** The three windows in turn; saved - 4 is where a displacement ending the code would be. */
  function Windows(t: seq<Byte>, saved: int, r: int, delta: int): (w: seq<Byte>)
    requires 6 <= saved <= |t|
    ensures |w| == |t|
  {
    Window(Window(Window(t, saved - 6, r, delta), saved - 5, r, delta), saved - 4, r, delta)
  }

  /** The windows look at six bytes only. */
  lemma WindowsLocal(t: seq<Byte>, saved: int, r: int, delta: int)
    requires 6 <= saved <= |t|
    ensures Windows(t, saved, r, delta) == t[..saved - 6] + Windows(t[saved - 6..saved], 6, r, delta) + t[saved..]
  {
    hide Enc32, Dec32;
    var a, f, b := t[..saved - 6], t[saved - 6..saved], t[saved..];
    assert t == a + f + b;
    hide Window;
    WindowLocal(a, f, b, 0, r, delta);
    var f1 := Window(f, 0, r, delta);
    WindowLocal(a, f1, b, 1, r, delta);
    WindowLocal(a, Window(f1, 1, r, delta), b, 2, r, delta);
  }

  lemma WindowLocal(a: seq<Byte>, f: seq<Byte>, b: seq<Byte>, j: nat, r: int, delta: int)
    requires j + 4 <= |f|
    ensures Window(a + f + b, |a| + j, r, delta) == a + Window(f, j, r, delta) + b
  {
    hide Enc32, Dec32, AddAt;
    InMiddle(a, f, b, j, 4);
    AddLocal(a, f, b, j, delta);
  }

  lemma InMiddle(a: seq<Byte>, f: seq<Byte>, b: seq<Byte>, j: nat, n: nat)
    requires j + n <= |f|
    ensures var t, i := a + f + b, |a| + j;
            t[i..i + n] == f[j..j + n] && t[..i] == a + f[..j] && t[i + n..] == f[j + n..] + b
  {
  }

  lemma AddLocal(a: seq<Byte>, f: seq<Byte>, b: seq<Byte>, j: nat, delta: int)
    requires j + 4 <= |f|
    ensures AddAt(a + f + b, |a| + j, delta) == a + AddAt(f, j, delta) + b
  {
    hide Enc32, Dec32;
    InMiddle(a, f, b, j, 4);
    Regrouped(a, f[..j], Enc32(Dec32(f[j..j + 4]) + delta), f[j + 4..], b);
  }

  lemma Regrouped(a: seq<Byte>, x: seq<Byte>, y: seq<Byte>, z: seq<Byte>, b: seq<Byte>)
    ensures (a + x) + y + (z + b) == a + (x + y + z) + b
  {
  }

  /** What becomes of the six bytes in front of the slot. */
  function Strayed(f: seq<Byte>, ds: seq<Insn>, delta: int): (r: seq<Byte>)
    requires |f| == 6
    ensures |r| == 6
  {
    if FilledByRip(ds) then Windows(f, 6, RipText(Take(ds, 0)), delta) else f
  }

  /** The prologue and the jump back, as copied. */
  function Copied(p: seq<Insn>, delta: int): (t: seq<Byte>)
    ensures |t| == |BitsAll(p)| + 5
  {
    BitsAll(p) + Bits(JmpRel(delta - 5))
  }

  /** Nothing below reaches outside the copy. */
  predicate Fixable(p: seq<Insn>) {
    (RipText(p) != NULL_RIP ==> |BitsAll(p)| >= 6) && JumpFix(p) <= |BitsAll(p)| + 1
  }

  /** The fix-ups in the order of the code. */
  function FixBytes(t: seq<Byte>, saved: int, rip: int, withJmp: int, delta: int): (r: seq<Byte>)
    requires 0 <= saved && saved + 5 <= |t| && (rip != NULL_RIP ==> 6 <= saved) && withJmp + 4 <= |t|
    ensures |r| == |t|
  {
    var t := if rip != NULL_RIP then Windows(t, saved, rip, delta) else t;
    var t := if withJmp > 0 then AddAt(t, withJmp, delta) else t;
    JumpFirst(t, delta)
  }

  /** What install_hook leaves in the trampoline for a prologue moved down by delta. */
  function Fixed(p: seq<Insn>, delta: int): (t: seq<Byte>)
    requires JMP_LEN <= |BitsAll(p)| && Fixable(p)
    ensures |t| == |BitsAll(p)| + 5
  {
    FixBytes(Copied(p, delta), |BitsAll(p)|, RipText(p), JumpFix(p), delta)
  }

  predicate Imaged(ds: seq<Insn>) {
    Filled(ds) || (JMP_LEN <= |BitsAll(Take(ds, 0))| && Fixable(Take(ds, 0)))
  }

  /** What is left in the trampoline for a disassembled window. With nothing saved it is the jump
      back alone, which the last fix-up takes for a copied one. */
  function Image(ds: seq<Insn>, delta: int): (t: seq<Byte>)
    requires Imaged(ds)
    ensures |t| == Saved(ds) + 5
  {
    if Filled(ds) then FixBytes(Bits(JmpRel(delta - 5)), 0, NULL_RIP, -1, delta) else Fixed(Take(ds, 0), delta)
  }

  /** A prologue as the scan delivers it: everything before the last instruction fits in four
      bytes, the last reaches the fifth. */
  ghost predicate Scanned<S>(m: Machine<S>, p: seq<Insn>) {
    && Straight(m, p) && p != []
    && |BitsAll(p[..|p| - 1])| < JMP_LEN <= |BitsAll(p)|
  }

  // ----- only the last instruction can hold a displacement

  lemma {:induction false} PartIsShorter(p: seq<Insn>, k: nat)
    requires k < |p|
    ensures Len(p[k]) <= |BitsAll(p)|
  {
    if k > 0 {
      PartIsShorter(p[1..], k - 1);
    }
  }

  lemma InitIsPlain<S>(m: Machine<S>, p: seq<Insn>, k: nat)
    requires Lawful(m) && Scanned(m, p) && k + 1 < |p|
    ensures p[k].Plain?
  {
    var init := p[..|p| - 1];
    PartIsShorter(init, k);
    assert init[k] == p[k];
  }

  lemma {:induction false} NoRipNoText(p: seq<Insn>)
    requires forall k :: 0 <= k < |p| ==> !p[k].RipRel?
    ensures RipText(p) == NULL_RIP
  {
    if p != [] {
      NoRipNoText(p[..|p| - 1]);
    }
  }

  /** The text seen by the scan: the last instruction's displacement, if positive. */
  lemma TextOfLast<S>(m: Machine<S>, p: seq<Insn>)
    requires Lawful(m) && Scanned(m, p)
    ensures var last := p[|p| - 1];
            RipText(p) == if Printed(last) then last.disp else NULL_RIP
  {
    var init := p[..|p| - 1];
    forall k | 0 <= k < |init| ensures !init[k].RipRel? {
      InitIsPlain(m, p, k);
    }
    NoRipNoText(init);
  }

  lemma SplitLast(p: seq<Insn>)
    requires p != []
    ensures BitsAll(p) == BitsAll(p[..|p| - 1]) + Bits(p[|p| - 1])
  {
    hide Bits, BitsAll;
    var init, last := p[..|p| - 1], p[|p| - 1];
    assert p == init + [last];
    BitsAppend(init, [last]);
    BitsOfOne(last);
  }

  /** The bytes around the displacement field of an instruction. */
  function Before(i: Insn): seq<Byte>
    requires i.RipRel? || i.JmpRel?
  {
    if i.RipRel? then i.pre else [E9]
  }

  function After(i: Insn): seq<Byte>
    requires i.RipRel? || i.JmpRel?
  {
    if i.RipRel? then i.post else []
  }

  /** Where the displacement of the last instruction is in the copy. */
  function FieldAt(p: seq<Insn>): int
    requires p != [] && (p[|p| - 1].RipRel? || p[|p| - 1].JmpRel?)
  {
    |BitsAll(p[..|p| - 1])| + |Before(p[|p| - 1])|
  }

  lemma PatchField(a: seq<Byte>, disp: int, b: seq<Byte>, delta: int)
    requires Fits32(disp)
    ensures var t := a + Enc32(disp) + b;
            && t[|a|..|a| + 4] == Enc32(disp) && Dec32(Enc32(disp)) == disp
            && AddAt(t, |a|, delta) == a + Enc32(disp + delta) + b
  {
    hide Enc32, Dec32;
    DecEnc32(disp);
    var t := a + Enc32(disp) + b;
    assert t[|a|..|a| + 4] == Enc32(disp);
    assert t[..|a|] == a && t[|a| + 4..] == b;
  }

  lemma BitsOfField(i: Insn, delta: int)
    requires i.RipRel? || i.JmpRel?
    ensures Bits(i) == Before(i) + Enc32(i.disp) + After(i)
    ensures Bits(Reloc(i, delta)) == Before(i) + Enc32(i.disp + delta) + After(i)
  {
    hide Enc32;
  }

  lemma Regroup(a: seq<Byte>, b: seq<Byte>, f: seq<Byte>, c: seq<Byte>, d: seq<Byte>)
    ensures a + (b + f + c) + d == (a + b) + f + (c + d)
  {
  }

  /** Only the last instruction is changed by the move. */
  lemma InitStays(p: seq<Insn>, delta: int)
    requires p != [] && forall k :: 0 <= k < |p| - 1 ==> p[k].Plain?
    ensures RelocAll(p, delta) == p[..|p| - 1] + [Reloc(p[|p| - 1], delta)]
  {
    var q, r := RelocAll(p, delta), p[..|p| - 1] + [Reloc(p[|p| - 1], delta)];
    hide RelocAll;
    assert forall k :: 0 <= k < |p| ==> q[k] == r[k];
  }

  lemma RelocLast<S>(m: Machine<S>, p: seq<Insn>, delta: int)
    requires Lawful(m) && Scanned(m, p)
    ensures p != [] && BitsAll(Trampoline(p, delta)) ==
            BitsAll(p[..|p| - 1]) + Bits(Reloc(p[|p| - 1], delta)) + Bits(JmpRel(delta - 5))
  {
    forall k | 0 <= k < |p| - 1 ensures p[k].Plain? {
      InitIsPlain(m, p, k);
    }
    InitStays(p, delta);
    hide Bits, BitsAll, Lawful, Straight, Reloc, RelocAll;
    var init, last, q, back := p[..|p| - 1], Reloc(p[|p| - 1], delta), RelocAll(p, delta), JmpRel(delta - 5);
    BitsAppend(q, [back]);
    BitsAppend(init, [last]);
    BitsOfOne(back);
    BitsOfOne(last);
  }

  lemma BitsOfOne(i: Insn)
    ensures BitsAll([i]) == Bits(i)
  {
    hide Bits;
    assert [i][1..] == [];
  }

  /** Moving an instruction with a field is adding delta to the field. */
  lemma FieldMoves(a: seq<Byte>, i: Insn, tail: seq<Byte>, delta: int)
    requires (i.RipRel? || i.JmpRel?) && Fits32(i.disp)
    ensures var t, f := a + Bits(i) + tail, |a| + |Before(i)|;
            && f + 4 <= |t| && Dec32(t[f..f + 4]) == i.disp
            && a + Bits(Reloc(i, delta)) + tail == AddAt(t, f, delta)
  {
    hide Bits, Reloc, Before, After, AddAt, Enc32, Dec32;
    BitsOfField(i, delta);
    Regroup(a, Before(i), Enc32(i.disp), After(i), tail);
    Regroup(a, Before(i), Enc32(i.disp + delta), After(i), tail);
    PatchField(a + Before(i), i.disp, After(i) + tail, delta);
  }

  /** The trampoline wanted is the copy with delta added to the field, which is in the copy. */
  predicate AddsToField(p: seq<Insn>, delta: int)
    requires p != [] && !p[|p| - 1].Plain?
  {
    && 0 <= FieldAt(p) && FieldAt(p) + 4 <= |Copied(p, delta)|
    && Dec32(Copied(p, delta)[FieldAt(p)..FieldAt(p) + 4]) == p[|p| - 1].disp
    && BitsAll(Trampoline(p, delta)) == AddAt(Copied(p, delta), FieldAt(p), delta)
  }

  /** The trampoline wanted is the copy with delta added to the last displacement, if any. */
  lemma Wanted<S>(m: Machine<S>, p: seq<Insn>, delta: int)
    requires Lawful(m) && Scanned(m, p)
    ensures var last := p[|p| - 1];
            if last.Plain? then BitsAll(Trampoline(p, delta)) == Copied(p, delta) else AddsToField(p, delta)
  {
    hide Bits, BitsAll, Lawful, Straight, Reloc, Before, After, Trampoline, AddAt, Dec32;
    RelocLast(m, p, delta);
    SplitLast(p);
    var last, a, tail := p[|p| - 1], BitsAll(p[..|p| - 1]), Bits(JmpRel(delta - 5));
    if !last.Plain? {
      LastField(m, p);
      FieldMoves(a, last, tail, delta);
    } else {
      PlainStays(last, delta);
    }
  }

  lemma PlainStays(i: Insn, delta: int)
    requires i.Plain?
    ensures Reloc(i, delta) == i
  {
  }

  lemma LastField<S>(m: Machine<S>, p: seq<Insn>)
    requires Lawful(m) && Scanned(m, p) && !p[|p| - 1].Plain?
    ensures var last := p[|p| - 1]; (last.RipRel? || last.JmpRel?) && Fits32(last.disp)
  {
    assert m.legal(p[|p| - 1]);
  }

  // ----- exactly when the fix-ups relocate

  /** Window j, when its turn comes, does not match by accident. */
  predicate Quiet(t: seq<Byte>, f: int, j: int, r: int, delta: int)
    requires 0 <= j && j + 4 <= |t| && 0 <= f && f + 4 <= |t|
  {
    && (j < f ==> Dec32(t[j..j + 4]) != r)
    && (j > f ==> Dec32(AddAt(t, f, delta)[j..j + 4]) != r)
  }

  /** Of the three windows, none but the displacement itself matches. */
  predicate OnlyWindow(t: seq<Byte>, f: int, saved: int, r: int, delta: int)
    requires 6 <= saved <= |t| && 0 <= f && f + 4 <= |t|
  {
    Quiet(t, f, saved - 6, r, delta) && Quiet(t, f, saved - 5, r, delta) && Quiet(t, f, saved - 4, r, delta)
  }

  /** The prologues install_hook relocates correctly. A displacement not printed as [rip+...] is
      never seen, nor is one followed by an immediate of more than two bytes; a jump is found
      only as the first instruction, or as the second. */
  predicate Allowed(p: seq<Insn>, delta: int) {
    && p != []
    && var last := p[|p| - 1];
    match last
    case Plain(_) => true
    case JmpRel(_) => |p| <= 2
    case RipRel(pre, disp, post) =>
      var saved := |BitsAll(p)|;
      && Printed(last) && disp != NULL_RIP && |post| <= 2 && 6 <= saved
      && FieldAt(p) + 4 <= saved && OnlyWindow(Copied(p, delta), FieldAt(p), saved, disp, delta)
  }

  lemma AddAtTouches(t: seq<Byte>, j: int, delta: int)
    requires 0 <= j && j + 4 <= |t| && delta % TWO32 != 0
    ensures var k := LowZeros(delta % TWO32);
            && k < 4 && AddAt(t, j, delta)[j + k] != t[j + k]
            && forall i :: 0 <= i < j + k ==> AddAt(t, j, delta)[i] == t[i]
  {
    hide Enc32, Dec32, LowZeros;
    var b, r, k := t[j..j + 4], AddAt(t, j, delta), LowZeros(delta % TWO32);
    AddTouches32(b, delta);
    assert r[j..j + 4][k] == r[j + k] && b[k] == t[j + k];
    forall i | 0 <= i < j + k ensures r[i] == t[i] {
      if j <= i {
        assert r[j..j + 4][i - j] == r[i] && b[i - j] == t[i];
      }
    }
  }

  /** Additions at two different places never agree. */
  lemma WrongPlace(t: seq<Byte>, j: int, j': int, delta: int)
    requires 0 <= j < j' && j' + 4 <= |t| && delta % TWO32 != 0
    ensures AddAt(t, j, delta) != AddAt(t, j', delta)
  {
    AddAtTouches(t, j, delta);
    AddAtTouches(t, j', delta);
    assert AddAt(t, j, delta)[j + LowZeros(delta % TWO32)] != AddAt(t, j', delta)[j + LowZeros(delta % TWO32)];
  }

  lemma WindowTouches(t: seq<Byte>, j: int, r: int, delta: int)
    requires 0 <= j && j + 4 <= |t| && delta % TWO32 != 0
    ensures var k := LowZeros(delta % TWO32);
            && k < 4
            && (forall i :: 0 <= i < j + k ==> Window(t, j, r, delta)[i] == t[i])
            && (Dec32(t[j..j + 4]) == r ==> Window(t, j, r, delta)[j + k] != t[j + k])
  {
    AddAtTouches(t, j, delta);
  }

  /** A window that matches by accident leaves a wrong byte that no later window repairs. */
  lemma Spoilt(t: seq<Byte>, goal: seq<Byte>, j: int, j1: int, j2: int, r: int, delta: int, k: nat)
    requires |goal| == |t| && 0 <= j < j1 < j2 && j2 + 4 <= |t| && delta % TWO32 != 0
    requires Dec32(t[j..j + 4]) == r
    requires k == LowZeros(delta % TWO32) && k < 4 && goal[j + k] == t[j + k]
    ensures Window(Window(Window(t, j, r, delta), j1, r, delta), j2, r, delta) != goal
    ensures Window(Window(t, j, r, delta), j2, r, delta) != goal
    ensures Window(t, j, r, delta) != goal
  {
    hide Dec32, LowZeros, Window;
    var w := Window(t, j, r, delta);
    WindowTouches(t, j, r, delta);
    WindowTouches(w, j1, r, delta);
    WindowTouches(w, j2, r, delta);
    WindowTouches(Window(w, j1, r, delta), j2, r, delta);
  }

  /** The three windows together add delta at f, and nowhere else, exactly when f is one of
      them and no other matches. */
  lemma WindowsExact(t: seq<Byte>, f: int, saved: int, r: int, delta: int)
    requires 6 <= saved <= |t| - 1 && 0 <= f <= saved - 4 && delta % TWO32 != 0
    requires Dec32(t[f..f + 4]) == r
    ensures Windows(t, saved, r, delta) == AddAt(t, f, delta) <==>
            f >= saved - 6 && OnlyWindow(t, f, saved, r, delta)
  {
    hide Dec32, AddAt, LowZeros, Window;
    var a, b, c := saved - 6, saved - 5, saved - 4;
    var k, goal := LowZeros(delta % TWO32), AddAt(t, f, delta);
    var w1 := Window(t, a, r, delta);
    var w2 := Window(w1, b, r, delta);
    AddAtTouches(t, f, delta);
    WindowChoice(t, a, r, delta);
    WindowChoice(w1, b, r, delta);
    WindowChoice(w2, c, r, delta);
    if f < a {
      WindowTouches(t, a, r, delta);
      WindowTouches(w1, b, r, delta);
      WindowTouches(w2, c, r, delta);
      assert Window(w2, c, r, delta)[f + k] == t[f + k] != goal[f + k];
    } else if f == a {
      assert w1 == goal;
      WindowTouches(w1, b, r, delta);
      WindowTouches(w2, c, r, delta);
    } else if w1 != t {
      Spoilt(t, goal, a, b, c, r, delta, k);
    } else {
      LaterWindow(t, f, a, b, c, r, delta);
    }
  }

  /** The first window does not match: the other two decide. */
  lemma LaterWindow(t: seq<Byte>, f: int, a: int, b: int, c: int, r: int, delta: int)
    requires 0 <= a && b == a + 1 && c == a + 2 && c + 4 <= |t| - 1 && (f == b || f == c) && delta % TWO32 != 0
    requires Dec32(t[f..f + 4]) == r && Window(t, a, r, delta) == t
    ensures Window(Window(t, b, r, delta), c, r, delta) == AddAt(t, f, delta) <==>
            OnlyWindow(t, f, a + 6, r, delta)
  {
    hide Dec32, AddAt, LowZeros, Window;
    var k, goal := LowZeros(delta % TWO32), AddAt(t, f, delta);
    var w2 := Window(t, b, r, delta);
    AddAtTouches(t, f, delta);
    WindowChoice(t, a, r, delta);
    WindowChoice(t, b, r, delta);
    WindowChoice(w2, c, r, delta);
    WindowTouches(t, a, r, delta);
    WindowTouches(t, b, r, delta);
    WindowTouches(w2, c, r, delta);
    assert f == c && w2 != t ==> Window(w2, c, r, delta)[b + k] != goal[b + k];
  }

  lemma WindowChoice(t: seq<Byte>, j: int, r: int, delta: int)
    requires 0 <= j && j + 4 <= |t|
    ensures Window(t, j, r, delta) == if Dec32(t[j..j + 4]) == r then AddAt(t, j, delta) else t
  {
  }

  lemma FirstByte<S>(m: Machine<S>, p: seq<Insn>, delta: int)
    requires Lawful(m) && Scanned(m, p)
    ensures Copied(p, delta)[0] == Bits(p[0])[0]
    ensures Copied(p, delta)[0] == E9 <==> |p| == 1 && p[0].JmpRel?
  {
    hide Bits;
    assert m.legal(p[0]) && Len(p[0]) >= 1;
    assert Copied(p, delta)[0] == Bits(p[0])[0];
    if Bits(p[0])[0] == E9 {
      OnlyJumpsStartE9(m, p[0]);
      if |p| > 1 {
        InitIsPlain(m, p, 0);
      }
    } else if p[0].JmpRel? {
      JumpStartsE9(p[0]);
    }
  }

  lemma JumpStartsE9(i: Insn)
    requires i.JmpRel?
    ensures Bits(i)[0] == E9 && Len(i) == 5
  {
  }

  /** Behind another instruction, the scan takes exactly the near jumps for near jumps. */
  lemma JumpSeen<S>(m: Machine<S>, p: seq<Insn>)
    requires Lawful(m) && Scanned(m, p)
    ensures JumpFix(p) == if |p| >= 2 && p[|p| - 1].JmpRel? then Len(p[|p| - 2]) + 1 else -1
  {
    hide Bits;
    var last := p[|p| - 1];
    assert m.legal(last) && Len(last) >= 1;
    if Bits(last)[0] == E9 {
      OnlyJumpsStartE9(m, last);
    }
    if last.JmpRel? {
      JumpStartsE9(last);
    }
  }

  lemma RipIsLong<S>(m: Machine<S>, p: seq<Insn>)
    requires Lawful(m) && Scanned(m, p) && p[|p| - 1].RipRel?
    ensures var last := p[|p| - 1];
            && |BitsAll(p)| == |BitsAll(p[..|p| - 1])| + |last.pre| + 4 + |last.post| && |last.pre| >= 2
            && FieldAt(p) == |BitsAll(p)| - 4 - |last.post| && FieldAt(p) >= 2
  {
    SplitLast(p);
    assert m.legal(p[|p| - 1]);
  }

  lemma IsFixable<S>(m: Machine<S>, p: seq<Insn>)
    requires Lawful(m) && Scanned(m, p)
    ensures Fixable(p)
  {
    TextOfLast(m, p);
    JumpSeen(m, p);
    if p[|p| - 1].RipRel? {
      RipIsLong(m, p);
    }
    if |p| >= 2 && p[|p| - 1].JmpRel? {
      InitBeforeJump(p);
    }
  }

  /** With a jump last, the instruction before it and the byte E9 end before the field. */
  lemma InitBeforeJump(p: seq<Insn>)
    requires |p| >= 2 && p[|p| - 1].JmpRel?
    ensures |BitsAll(p)| == |BitsAll(p[..|p| - 1])| + 5
    ensures |BitsAll(p[..|p| - 1])| == |BitsAll(p[..|p| - 2])| + Len(p[|p| - 2])
    ensures |p| == 2 ==> |BitsAll(p[..|p| - 2])| == 0
  {
    hide Bits;
    SplitLast(p);
    JumpStartsE9(p[|p| - 1]);
    var init := p[..|p| - 1];
    SplitLast(init);
    assert init[..|init| - 1] == p[..|p| - 2] && init[|init| - 1] == p[|p| - 2];
  }

  /** The fix-ups leave the trampoline wanted exactly for the allowed prologues. */
  lemma FixedExactly<S>(m: Machine<S>, p: seq<Insn>, delta: int)
    requires Lawful(m) && Scanned(m, p) && delta % TWO32 != 0
    ensures Fixable(p)
    ensures Fixed(p, delta) == BitsAll(Trampoline(p, delta)) <==> Allowed(p, delta)
  {
    IsFixable(m, p);
    Wanted(m, p, delta);
    TextOfLast(m, p);
    JumpSeen(m, p);
    FirstByte(m, p, delta);
    var last := p[|p| - 1];
    assert m.legal(last);
    hide Bits, BitsAll, RipText, JumpFix, Lawful, Scanned, Trampoline, AddAt, Copied, Windows;
    match last
    case Plain(_) =>
    case JmpRel(_) => JumpExact(m, p, delta);
    case RipRel(_, _, _) => RipExact(m, p, delta);
  }

  lemma JumpExact<S>(m: Machine<S>, p: seq<Insn>, delta: int)
    requires Lawful(m) && Scanned(m, p) && delta % TWO32 != 0 && p[|p| - 1].JmpRel?
    ensures Fixable(p) && 0 <= FieldAt(p) && FieldAt(p) + 4 <= |Copied(p, delta)|
    ensures Fixed(p, delta) == AddAt(Copied(p, delta), FieldAt(p), delta) <==> |p| <= 2
  {
    IsFixable(m, p);
    Wanted(m, p, delta);
    TextOfLast(m, p);
    JumpSeen(m, p);
    FirstByte(m, p, delta);
    assert m.legal(p[0]) && Len(p[0]) >= 1;
    if |p| >= 2 {
      InitBeforeJump(p);
      assert m.legal(p[|p| - 2]) && Len(p[|p| - 2]) >= 1;
    }
    if |p| >= 3 {
      PartIsShorter(p[..|p| - 2], 0);
    }
    hide Lawful, Scanned;
    JumpFixed(p, delta);
  }

  lemma JumpFixed(p: seq<Insn>, delta: int)
    requires JMP_LEN <= |BitsAll(p)| && Fixable(p) && p != [] && p[|p| - 1].JmpRel? && delta % TWO32 != 0
    requires RipText(p) == NULL_RIP && (Copied(p, delta)[0] == E9 <==> |p| == 1)
    requires JumpFix(p) == if |p| >= 2 then Len(p[|p| - 2]) + 1 else -1
    requires 0 <= FieldAt(p) && FieldAt(p) + 4 <= |Copied(p, delta)|
    requires |p| >= 2 ==> Len(p[|p| - 2]) >= 1 && FieldAt(p) == |BitsAll(p[..|p| - 2])| + Len(p[|p| - 2]) + 1
    requires |p| == 2 ==> |BitsAll(p[..|p| - 2])| == 0
    requires |p| >= 3 ==> |BitsAll(p[..|p| - 2])| > 0
    ensures Fixed(p, delta) == AddAt(Copied(p, delta), FieldAt(p), delta) <==> |p| <= 2
  {
    hide Bits, RipText, JumpFix, AddAt, Copied, FixBytes;
    var t, f, saved := Copied(p, delta), FieldAt(p), |BitsAll(p)|;
    if |p| == 1 {
      FieldOfFirst(p);
      FirstJump(t, saved, delta);
    } else {
      hide BitsAll, FieldAt;
      var j := JumpFix(p);
      LaterJump(t, saved, j, delta);
      if |p| >= 3 {
        WrongPlace(t, j, f, delta);
      }
    }
  }

  lemma FieldOfFirst(p: seq<Insn>)
    requires |p| == 1 && p[0].JmpRel?
    ensures FieldAt(p) == 1
  {
    assert p[..0] == [];
  }

  /** The fix-ups of code that starts with a jump. */
  lemma FirstJump(t: seq<Byte>, saved: int, delta: int)
    requires 0 <= saved && JMP_LEN + saved <= |t| && t[0] == E9
    ensures FixBytes(t, saved, NULL_RIP, -1, delta) == AddAt(t, 1, delta)
  {
    hide AddAt, Windows;
  }

  /** The fix-ups of code with a jump behind another instruction. */
  lemma LaterJump(t: seq<Byte>, saved: int, j: int, delta: int)
    requires 0 <= saved && JMP_LEN + saved <= |t| && 0 < j && j + 4 <= |t| && t[0] != E9
    ensures FixBytes(t, saved, NULL_RIP, j, delta) == AddAt(t, j, delta)
  {
    hide AddAt, Windows;
    assert AddAt(t, j, delta)[0] == t[0];
  }

  lemma RipExact<S>(m: Machine<S>, p: seq<Insn>, delta: int)
    requires Lawful(m) && Scanned(m, p) && delta % TWO32 != 0 && p[|p| - 1].RipRel?
    ensures Fixable(p) && 0 <= FieldAt(p) && FieldAt(p) + 4 <= |Copied(p, delta)|
    ensures Fixed(p, delta) == AddAt(Copied(p, delta), FieldAt(p), delta) <==> Allowed(p, delta)
  {
    IsFixable(m, p);
    Wanted(m, p, delta);
    TextOfLast(m, p);
    JumpSeen(m, p);
    FirstByte(m, p, delta);
    RipIsLong(m, p);
    hide Lawful, Scanned;
    RipFixed(p, delta);
  }

  lemma RipFixed(p: seq<Insn>, delta: int)
    requires JMP_LEN <= |BitsAll(p)| && Fixable(p) && p != [] && p[|p| - 1].RipRel? && delta % TWO32 != 0
    requires RipText(p) == if Printed(p[|p| - 1]) then p[|p| - 1].disp else NULL_RIP
    requires JumpFix(p) == -1 && Copied(p, delta)[0] != E9
    requires 2 <= FieldAt(p) == |BitsAll(p)| - 4 - |p[|p| - 1].post|
    requires Dec32(Copied(p, delta)[FieldAt(p)..FieldAt(p) + 4]) == p[|p| - 1].disp
    ensures Fixed(p, delta) == AddAt(Copied(p, delta), FieldAt(p), delta) <==> Allowed(p, delta)
  {
    hide Bits, BitsAll, RipText, JumpFix, AddAt, Copied, Windows, OnlyWindow, FieldAt, Overridden;
    var t, f, r := Copied(p, delta), FieldAt(p), p[|p| - 1].disp;
    var goal := AddAt(t, f, delta);
    assert goal[0] == t[0];
    if Printed(p[|p| - 1]) && r != NULL_RIP {
      var w := Windows(t, |BitsAll(p)|, r, delta);
      WindowsExact(t, f, |BitsAll(p)|, r, delta);
      assert Fixed(p, delta) == JumpFirst(w, delta);
      JumpFirstGuard(w, goal, delta);
    } else {
      AddAtTouches(t, f, delta);
      assert Fixed(p, delta) == t;
    }
  }

  /** The last fix-up: a first byte E9 makes the next four a displacement. */
  function JumpFirst(t: seq<Byte>, delta: int): (r: seq<Byte>)
    requires |t| >= 5
    ensures |r| == |t|
  {
    if t[0] == E9 then AddAt(t, 1, delta) else t
  }

  lemma JumpFirstGuard(w: seq<Byte>, goal: seq<Byte>, delta: int)
    requires |w| == |goal| >= 5 && goal[0] != E9
    ensures JumpFirst(w, delta) == goal <==> w == goal
  {
  }

  // ----- prologues that go wrong

  lemma OneIsScanned<S>(m: Machine<S>, i: Insn)
    requires m.legal(i) && Len(i) >= JMP_LEN
    ensures Scanned(m, [i]) && BitsAll([i]) == Bits(i)
  {
    hide Bits;
    assert [i][..0] == [];
    BitsOfOne(i);
  }

  /** lea rax, [rip-8] is copied as it stands: its displacement is not relocated. */
  lemma NegativeDisplacementLost(delta: int)
    requires delta % TWO32 != 0
    ensures var p := [RipRel(LEA, -8, [])];
            && Scanned(SmallMachine(), p) && Fixable(p) && Fixed(p, delta) != BitsAll(Trampoline(p, delta))
            && Fixed(p, delta) == Copied(p, delta)
  {
    var m, i := SmallMachine(), RipRel(LEA, -8, []);
    var p := [i];
    LawfulMachineExists();
    OneIsScanned(m, i);
    hide Lawful, Scanned, Bits, BitsAll, RipText, JumpFix, AddAt, Windows, Copied, Trampoline;
    FixedExactly(m, p, delta);
    FirstByte(m, p, delta);
    TextOfLast(m, p);
    JumpSeen(m, p);
  }

  /** Nor is lea rax, [eip+d], behind prefix 67, for any displacement. */
  lemma PrefixedLost(d: int, delta: int)
    requires Fits32(d) && delta % TWO32 != 0
    ensures var p := [RipRel(EIP_LEA, d, [])];
            && Scanned(SmallMachine(), p) && Fixable(p) && Fixed(p, delta) != BitsAll(Trampoline(p, delta))
            && Fixed(p, delta) == Copied(p, delta)
  {
    var m, i := SmallMachine(), RipRel(EIP_LEA, d, []);
    var p := [i];
    LawfulMachineExists();
    OneIsScanned(m, i);
    assert Overridden(EIP_LEA);
    hide Lawful, Scanned, Bits, BitsAll, RipText, JumpFix, AddAt, Windows, Copied, Trampoline, Overridden;
    FixedExactly(m, p, delta);
    FirstByte(m, p, delta);
    TextOfLast(m, p);
    JumpSeen(m, p);
  }

  lemma TwoNops(d: int)
    requires Fits32(d)
    ensures var p := [Plain([0x90]), Plain([0x90]), JmpRel(d)];
            Scanned(SmallMachine(), p) && |BitsAll(p)| == 7 && |BitsAll(p[..2])| == 2
  {
    hide Enc32, BitsAll;
    var nop := Plain([0x90]);
    var p := [nop, nop, JmpRel(d)];
    assert p[..2] == [nop] + [nop];
    ConsBits(nop, [nop]);
    SplitLast(p);
    JumpStartsE9(p[2]);
  }

  /** A jump behind two one-byte instructions gets delta in the wrong place. */
  lemma ThirdJumpLost(d: int, delta: int)
    requires Fits32(d) && delta % TWO32 != 0
    ensures var p := [Plain([0x90]), Plain([0x90]), JmpRel(d)];
            && Scanned(SmallMachine(), p) && Fixable(p) && Fixed(p, delta) != BitsAll(Trampoline(p, delta))
            && JumpFix(p) == 2 && FieldAt(p) == 3
  {
    var m, p := SmallMachine(), [Plain([0x90]), Plain([0x90]), JmpRel(d)];
    LawfulMachineExists();
    TwoNops(d);
    hide Lawful, Scanned, BitsAll, RipText, AddAt, Windows, Copied, Trampoline, Fixed;
    FixedExactly(m, p, delta);
    JumpSeen(m, p);
  }

  /** A window filled to its end: nothing is saved, and the jump back, taken for a copied one, is
      moved once more. It leads delta bytes past the function. */
  lemma FilledGoesAstray(ds: seq<Insn>, delta: int)
    requires Filled(ds)
    ensures Imaged(ds) && Image(ds, delta) == Bits(JmpRel(2 * delta - 5))
  {
    hide Dec32, Enc32, Filled;
    var d := delta - 5;
    var t := Bits(JmpRel(d));
    assert t[1..5] == Enc32(d);
    DecEnc32(d);
    EncShift(d, delta);
    assert AddAt(t, 1, delta) == [E9] + Enc32(d + delta);
  }

  lemma EncShift(d: int, delta: int)
    ensures Enc32(Wrap32(d) + delta) == Enc32(d + delta)
  {
    var q := (d + 0x8000_0000) / 0x1_0000_0000;
    assert Wrap32(d) == d - q * 0x1_0000_0000;
    assert (Wrap32(d) + delta) % TWO32 == (d + delta) % TWO32;
  }

  /** No fix-up reaches the jump back behind nine bytes or more. */
  lemma JumpBackKept(p: seq<Insn>, delta: int)
    requires |BitsAll(p)| >= 9 && Fixable(p) && JumpFix(p) <= JMP_LEN
    ensures Fixed(p, delta)[|BitsAll(p)|..] == Bits(JmpRel(delta - 5))
  {
    hide Bits, BitsAll, RipText, JumpFix;
    var t, saved := Copied(p, delta), |BitsAll(p)|;
    TailKept(t, saved, RipText(p), JumpFix(p), delta);
    assert t[saved..] == Bits(JmpRel(delta - 5));
  }

  lemma TailKept(t: seq<Byte>, saved: int, rip: int, withJmp: int, delta: int)
    requires 9 <= saved && |t| == saved + 5 && withJmp <= JMP_LEN
    ensures FixBytes(t, saved, rip, withJmp, delta)[saved..] == t[saved..]
  {
    hide Enc32, Dec32;
  }
}
