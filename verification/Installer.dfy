/** Installing and removing all registered hooks. */
module Installer {
  import opened Bytes
  import opened Isa
  import opened Prologue
  import opened Slot
  import opened Records

  // entries of the block table
  const MAX_MODULE: nat := 16

  /** A registered hook. call is what the caller's pointer to the original is set to. */
  datatype Hook = Hook(disabled: bool, org: nat, newFunc: nat, call: nat)

  datatype Module = Module(hooks: seq<Hook>, blk: nat)

  datatype Block = Block(addr: nat, numTrampoline: nat)

  function HookCount(ms: seq<Module>, n: nat): nat
    requires n <= |ms|
  {
    if n == 0 then 0 else HookCount(ms, n - 1) + |ms[n - 1].hooks|
  }

  /** An earlier hook of the module is for the same function. */
  predicate HasEarlier(hooks: seq<Hook>, i: nat)
    requires i < |hooks|
  {
    exists j :: 0 <= j < i && !hooks[j].disabled && hooks[j].org == hooks[i].org
  }

  predicate Enabled(ms: seq<Module>, m: int, i: int) {
    0 <= m < |ms| && 0 <= i < |ms[m].hooks| && !ms[m].hooks[i].disabled
  }

  /** Entries of different functions are at least five bytes apart; one function may be hooked
      twice within its module. */
  ghost predicate Spaced(ms: seq<Module>) {
    forall m, i, n, j :: Enabled(ms, m, i) && Enabled(ms, n, j) && (m != n || i != j) ==>
      var a, b := ms[m].hooks[i].org, ms[n].hooks[j].org;
      a + JMP_LEN <= b || b + JMP_LEN <= a || (m == n && a == b)
  }

  /** What registration, address lookup and block allocation have left behind. */
  ghost predicate Registered(ms: seq<Module>, addrs: seq<nat>, size: nat, page: nat) {
    && HookCount(ms, |ms|) <= MAX_PATCH && |addrs| <= MAX_MODULE && Spaced(ms)
    && (forall m :: 0 <= m < |ms| ==> ms[m].blk < MAX_MODULE)
    && forall m, i :: Enabled(ms, m, i) ==>
         ms[m].blk < |addrs| && Hookable(addrs, size, page, ms[m].hooks[i].org, ms[m].hooks[i].newFunc)
  }

  function SetHook(ms: seq<Module>, m: nat, i: nat, h: Hook): seq<Module>
    requires m < |ms| && i < |ms[m].hooks|
  {
    ms[m := Module(ms[m].hooks[i := h], ms[m].blk)]
  }

  // ----- how far the loops have come

  /** The first n hooks have been through the duplicate check. */
  predicate HooksDone(h0: seq<Hook>, h: seq<Hook>, n: nat) {
    && |h| == |h0|
    && (forall i :: 0 <= i < |h| && i < n ==>
         && (h[i].disabled <==> h0[i].disabled || HasEarlier(h0, i))
         && (!h[i].disabled ==> h[i].org == h0[i].org && h[i].newFunc == h0[i].newFunc))
    && forall i :: n <= i < |h| ==> h[i] == h0[i]
  }

  predicate Reached(m: int, i: int, mi: nat, fi: nat) { m < mi || (m == mi && i < fi) }

  predicate ModulesDone(ms0: seq<Module>, ms: seq<Module>, mi: nat, fi: nat) {
    && |ms| == |ms0|
    && (forall m :: 0 <= m < |ms| ==> ms[m].blk == ms0[m].blk)
    && (forall m :: 0 <= m < |ms| && m < mi ==> HooksDone(ms0[m].hooks, ms[m].hooks, |ms0[m].hooks|))
    && (mi < |ms| ==> HooksDone(ms0[mi].hooks, ms[mi].hooks, fi))
    && (forall m :: mi < m < |ms| ==> ms[m] == ms0[m])
  }

  /** A record describes an enabled hook, whose pointer to the original is its slot. */
  predicate Describes(ms: seq<Module>, addrs: seq<nat>, r: Rec) {
    && Enabled(ms, r.mod, r.fun) && r.blk < |addrs|
    && var h := ms[r.mod].hooks[r.fun];
       h.org == r.org && h.newFunc == r.newFunc && h.call == SlotAt(addrs, r.blk, r.idx)
  }

  ghost predicate Recorded(recs: set<Rec>, m: nat, i: nat) {
    exists r :: r in recs && r.mod == m && r.fun == i
  }

  /** The records are exactly the enabled hooks the loops have passed. */
  ghost predicate Matches(ms: seq<Module>, addrs: seq<nat>, recs: set<Rec>, mi: nat, fi: nat) {
    && (forall r :: r in recs ==> Describes(ms, addrs, r) && Reached(r.mod, r.fun, mi, fi))
    && forall m, i :: 0 <= m && 0 <= i && Enabled(ms, m, i) && Reached(m, i, mi, fi) ==> Recorded(recs, m, i)
  }

  /** Slots are used from below. */
  ghost predicate Below(recs: set<Rec>, tops: seq<nat>) {
    forall r :: r in recs ==> r.blk < |tops| && r.idx < tops[r.blk]
  }

  lemma {:induction false} FirstOfEqual(h: seq<Hook>, i: nat)
    requires i < |h| && HasEarlier(h, i)
    ensures exists j :: 0 <= j < i && !h[j].disabled && h[j].org == h[i].org && !HasEarlier(h, j)
  {
    var j :| 0 <= j < i && !h[j].disabled && h[j].org == h[i].org;
    if HasEarlier(h, j) {
      FirstOfEqual(h, j);
    }
  }

  /** Looking for an enabled hook among those already processed finds one just when there was one. */
  lemma SameEarlier(h0: seq<Hook>, h: seq<Hook>, i: nat)
    requires HooksDone(h0, h, i) && i < |h|
    ensures HasEarlier(h, i) <==> HasEarlier(h0, i)
  {
    if HasEarlier(h0, i) {
      FirstOfEqual(h0, i);
      var j :| 0 <= j < i && !h0[j].disabled && h0[j].org == h0[i].org && !HasEarlier(h0, j);
      assert !h[j].disabled && h[j].org == h[i].org;
    }
  }

  lemma StepModules(ms0: seq<Module>, ms: seq<Module>, mi: nat, fi: nat, h: Hook)
    requires ModulesDone(ms0, ms, mi, fi) && mi < |ms| && fi < |ms[mi].hooks|
    requires var o := ms[mi].hooks[fi];
             && (h.disabled <==> o.disabled || HasEarlier(ms[mi].hooks, fi))
             && (!h.disabled ==> h.org == o.org && h.newFunc == o.newFunc)
    ensures ModulesDone(ms0, SetHook(ms, mi, fi, h), mi, fi + 1)
  {
    SameEarlier(ms0[mi].hooks, ms[mi].hooks, fi);
    hide HasEarlier;
  }

  lemma SetSame(ms: seq<Module>, m: nat, i: nat)
    requires m < |ms| && i < |ms[m].hooks|
    ensures SetHook(ms, m, i, ms[m].hooks[i]) == ms
  {
    assert ms[m].hooks[i := ms[m].hooks[i]] == ms[m].hooks;
  }

  lemma EnabledAfterSet(ms: seq<Module>, mi: nat, fi: nat, h: Hook, m: int, i: int)
    requires mi < |ms| && fi < |ms[mi].hooks|
    ensures Enabled(SetHook(ms, mi, fi, h), m, i) <==>
            if m == mi && i == fi then !h.disabled else Enabled(ms, m, i)
    ensures Enabled(ms, m, i) && (m != mi || i != fi) ==> SetHook(ms, mi, fi, h)[m].hooks[i] == ms[m].hooks[i]
  {
  }

  /** Passing a disabled hook. */
  lemma MatchesSkip(ms: seq<Module>, addrs: seq<nat>, recs: set<Rec>, mi: nat, fi: nat, h: Hook)
    requires Matches(ms, addrs, recs, mi, fi) && mi < |ms| && fi < |ms[mi].hooks| && h.disabled
    ensures Matches(SetHook(ms, mi, fi, h), addrs, recs, mi, fi + 1)
  {
    var ms' := SetHook(ms, mi, fi, h);
    hide SetHook;
    forall r | r in recs ensures Describes(ms', addrs, r) {
      EnabledAfterSet(ms, mi, fi, h, r.mod, r.fun);
    }
    forall m, i | 0 <= m && 0 <= i && Enabled(ms', m, i) && Reached(m, i, mi, fi + 1) ensures Recorded(recs, m, i) {
      EnabledAfterSet(ms, mi, fi, h, m, i);
    }
  }

  /** Passing a hook that has been installed. */
  lemma MatchesHook(ms: seq<Module>, addrs: seq<nat>, recs: set<Rec>, mi: nat, fi: nat, h: Hook, n: Rec)
    requires Matches(ms, addrs, recs, mi, fi) && mi < |ms| && fi < |ms[mi].hooks| && !h.disabled
    requires n.mod == mi && n.fun == fi && n.blk < |addrs|
    requires h == Hook(false, n.org, n.newFunc, SlotAt(addrs, n.blk, n.idx))
    ensures Matches(SetHook(ms, mi, fi, h), addrs, recs + {n}, mi, fi + 1)
  {
    var ms' := SetHook(ms, mi, fi, h);
    assert ms'[mi].hooks[fi] == h;
    hide SetHook;
    EnabledAfterSet(ms, mi, fi, h, mi, fi);
    forall r | r in recs ensures Describes(ms', addrs, r) {
      EnabledAfterSet(ms, mi, fi, h, r.mod, r.fun);
    }
    forall m, i | 0 <= m && 0 <= i && Enabled(ms', m, i) && Reached(m, i, mi, fi + 1)
      ensures Recorded(recs + {n}, m, i)
    {
      EnabledAfterSet(ms, mi, fi, h, m, i);
      if m == mi && i == fi {
        assert n in recs + {n};
      } else {
        assert Recorded(recs, m, i);
        var r :| r in recs && r.mod == m && r.fun == i;
        assert r in recs + {n};
      }
    }
  }

  lemma NextModule(ms0: seq<Module>, ms: seq<Module>, addrs: seq<nat>, recs: set<Rec>, mi: nat)
    requires mi < |ms| && ModulesDone(ms0, ms, mi, |ms[mi].hooks|) && Matches(ms, addrs, recs, mi, |ms[mi].hooks|)
    ensures ModulesDone(ms0, ms, mi + 1, 0) && Matches(ms, addrs, recs, mi + 1, 0)
  {
  }

  lemma HooksStay(ms0: seq<Module>, ms: seq<Module>, mi: nat, fi: nat, m: int, i: int)
    requires ModulesDone(ms0, ms, mi, fi) && Enabled(ms, m, i)
    ensures Enabled(ms0, m, i) && ms0[m].hooks[i].org == ms[m].hooks[i].org
    ensures ms0[m].hooks[i].newFunc == ms[m].hooks[i].newFunc && ms0[m].blk == ms[m].blk
  {
    hide HasEarlier;
    assert m < mi ==> HooksDone(ms0[m].hooks, ms[m].hooks, |ms0[m].hooks|);
  }

  /** A hook that is neither disabled nor a duplicate is apart from all records. */
  lemma NewIsApart(ms0: seq<Module>, ms: seq<Module>, addrs: seq<nat>, recs: set<Rec>, tops: seq<nat>,
                   mi: nat, fi: nat, n: Rec)
    requires ModulesDone(ms0, ms, mi, fi) && Matches(ms, addrs, recs, mi, fi) && Spaced(ms0)
    requires Enabled(ms, mi, fi) && !HasEarlier(ms[mi].hooks, fi) && n.org == ms[mi].hooks[fi].org
    requires Below(recs, tops) && n.blk < |tops| && n.idx == tops[n.blk]
    ensures forall r :: r in recs ==> Apart(r, n)
  {
    HooksStay(ms0, ms, mi, fi, mi, fi);
    forall r | r in recs ensures Apart(r, n) {
      assert Describes(ms, addrs, r) && Reached(r.mod, r.fun, mi, fi);
      HooksStay(ms0, ms, mi, fi, r.mod, r.fun);
    }
  }

  lemma {:induction false} CountGrows(ms: seq<Module>, m: nat, n: nat)
    requires m <= n <= |ms|
    ensures HookCount(ms, m) <= HookCount(ms, n)
  {
    if m < n {
      CountGrows(ms, m, n - 1);
    }
  }

  function AddrsOf(blocks: seq<Block>): (a: seq<nat>)
    ensures |a| == |blocks| && forall b :: 0 <= b < |blocks| ==> a[b] == blocks[b].addr
  {
    seq(|blocks|, b requires 0 <= b < |blocks| => blocks[b].addr)
  }

  function TopsOf(blocks: seq<Block>): (t: seq<nat>)
    ensures |t| == |blocks| && forall b :: 0 <= b < |blocks| ==> t[b] == blocks[b].numTrampoline
  {
    seq(|blocks|, b requires 0 <= b < |blocks| => blocks[b].numTrampoline)
  }

  predicate TopsBelow(blocks: seq<Block>, n: nat) {
    forall b :: 0 <= b < |blocks| ==> blocks[b].numTrampoline <= n
  }

  /** munmap of the first n blocks. */
  function Unmapped(blocks: seq<Block>, n: nat): (r: seq<Block>)
    requires n <= |blocks|
  {
    seq(|blocks|, b requires 0 <= b < |blocks| => if b < n then blocks[b].(addr := 0) else blocks[b])
  }

  // ----- the sweep of uninstall_hook

  /** Some hook from slot i of block b on still has its jump at a. */
  ghost predicate Pending(recs: set<Rec>, b: int, i: int, a: int) {
    exists r :: r in recs && (r.blk > b || (r.blk == b && r.idx >= i)) && r.org <= a < r.org + JMP_LEN
  }

  /** The blocks, and what is in front of them where a hook strayed, are as installation left them
      (m1), the code before slot i of block b as it was before installation (m0). */
  ghost predicate Restoring(m: Memory, m1: Memory, m0: Memory, addrs: seq<nat>, recs: set<Rec>, b: int, i: int) {
    && |m| == |m1| == |m0|
    && (forall a :: 0 <= a < |m| && (!Clear(addrs, a, 1) || InFront(addrs, recs, a)) ==> m[a] == m1[a])
    && forall a :: 0 <= a < |m| && Clear(addrs, a, 1) && !InFront(addrs, recs, a) && !Pending(recs, b, i, a) ==>
         m[a] == m0[a]
  }

  /** Outside the blocks, the memories agree. */
  ghost predicate CodeIs(m: Memory, m0: Memory, addrs: seq<nat>) {
    |m| == |m0| && forall a :: 0 <= a < |m| && Clear(addrs, a, 1) ==> m[a] == m0[a]
  }

  /** The code is back (m0), but for what is in front of a block where a hook strayed (m1). */
  ghost predicate Returned(m: Memory, m1: Memory, m0: Memory, addrs: seq<nat>, recs: set<Rec>) {
    && |m| == |m1| == |m0|
    && forall a :: 0 <= a < |m| && Clear(addrs, a, 1) ==> m[a] == if InFront(addrs, recs, a) then m1[a] else m0[a]
  }

  lemma StartRestoring(m1: Memory, m0: Memory, addrs: seq<nat>, dis: Disassembler, page: nat, recs: set<Rec>)
    requires Installed(m1, m0, addrs, dis, page, recs)
    ensures Restoring(m1, m1, m0, addrs, recs, 0, 0)
  {
    hide Separate, Spread, AllHold, RestZero, SawOriginal, AllOff, FrontsAre, InFront;
    forall a | 0 <= a < |m1| && Clear(addrs, a, 1) && !InFront(addrs, recs, a) && !Pending(recs, 0, 0, a)
      ensures m1[a] == m0[a]
    {
      assert !InEntry(recs, a);
    }
  }

  lemma BlockRestored(m: Memory, m1: Memory, m0: Memory, addrs: seq<nat>, recs: set<Rec>, tops: seq<nat>, b: nat)
    requires b < |tops| && Restoring(m, m1, m0, addrs, recs, b, tops[b]) && Below(recs, tops)
    ensures Restoring(m, m1, m0, addrs, recs, b + 1, 0)
  {
    forall a | Pending(recs, b, tops[b], a) ensures Pending(recs, b + 1, 0, a) {
      var r :| r in recs && (r.blk > b || (r.blk == b && r.idx >= tops[b])) && r.org <= a < r.org + JMP_LEN;
      assert r.blk >= b + 1;
    }
  }

  lemma AllRestored(m: Memory, m1: Memory, m0: Memory, addrs: seq<nat>, recs: set<Rec>, tops: seq<nat>)
    requires Restoring(m, m1, m0, addrs, recs, |tops|, 0) && Below(recs, tops)
    ensures Returned(m, m1, m0, addrs, recs)
  {
    hide InFront;
    forall a | 0 <= a < |m| && Clear(addrs, a, 1)
      ensures m[a] == if InFront(addrs, recs, a) then m1[a] else m0[a]
    {
      assert !Pending(recs, |tops|, 0, a);
    }
  }

  /** A byte in front of a block where a hook strayed without harm. */
  lemma FrontByte(m1: Memory, m0: Memory, addrs: seq<nat>, dis: Disassembler, recs: set<Rec>, r: Rec, b: nat, a: nat)
    requires Separate(addrs, |m0|) && FrontsAre(m1, m0, addrs, dis, recs) && r in recs && r.strays
    requires r.blk < |addrs| && b == addrs[r.blk] && b - 6 <= a < b && Clear(addrs, a, 1) && !Harms(m0, addrs, dis, r)
    ensures a < |m1| == |m0| && m1[a] == m0[a]
  {
    FrontWhole(addrs, |m0|, r.blk, a);
    hide Clear, Harms, Separate;
    assert FrontIs(m1, m0, addrs, dis, r);
    FrontExactly(m1, m0, addrs, dis, r, b);
    assert m1[a] == m1[b - 6..b][a - (b - 6)] && m0[a] == m0[b - 6..b][a - (b - 6)];
  }

  /** A hook that does harm leaves a byte changed. */
  lemma HarmShows(m: Memory, m1: Memory, m0: Memory, addrs: seq<nat>, dis: Disassembler, recs: set<Rec>, r: Rec, b: nat)
    requires Returned(m, m1, m0, addrs, recs) && FrontsAre(m1, m0, addrs, dis, recs) && r in recs
    requires Harms(m0, addrs, dis, r) && b == addrs[r.blk]
    ensures !CodeIs(m, m0, addrs)
  {
    FrontClear(m0, addrs, dis, r, b);
    hide Harms, Struck, Returned, CodeIs, Fixups.Strayed;
    assert FrontIs(m1, m0, addrs, dis, r);
    FrontExactly(m1, m0, addrs, dis, r, b);
    hide FrontsAre, FrontIs, Clear;
    if CodeIs(m, m0, addrs) {
      FrontBack(m, m1, m0, addrs, recs, r, b);
    }
  }

  lemma FrontBack(m: Memory, m1: Memory, m0: Memory, addrs: seq<nat>, recs: set<Rec>, r: Rec, b: nat)
    requires Returned(m, m1, m0, addrs, recs) && CodeIs(m, m0, addrs) && r in recs && r.strays
    requires r.blk < |addrs| && b == addrs[r.blk] && 6 <= b <= |m0| && Clear(addrs, b - 6, 6)
    ensures |m1| == |m0| && m1[b - 6..b] == m0[b - 6..b]
  {
    forall a | b - 6 <= a < b ensures m1[a] == m0[a] {
      assert Clear(addrs, a, 1) && InFront(addrs, recs, a);
    }
  }

  lemma FrontClear(m0: Memory, addrs: seq<nat>, dis: Disassembler, r: Rec, b: nat)
    requires Harms(m0, addrs, dis, r) && b == addrs[r.blk]
    ensures r.strays && r.blk < |addrs| && 6 <= b <= |m0| && Clear(addrs, b - 6, 6)
  {
    hide Struck;
  }

  /** All code is back exactly if no hook did harm in front of its block. */
  lemma ReturnedExactly(m: Memory, m1: Memory, m0: Memory, addrs: seq<nat>, dis: Disassembler, page: nat,
                        recs: set<Rec>)
    requires Installed(m1, m0, addrs, dis, page, recs) && Returned(m, m1, m0, addrs, recs)
    ensures CodeIs(m, m0, addrs) <==> forall r :: r in recs ==> !Harms(m0, addrs, dis, r)
  {
    hide AllHold, Spread, CodeKept, RestZero, SawOriginal, AllOff, Harms, Clear, FrontsAre, Separate;
    if forall r :: r in recs ==> !Harms(m0, addrs, dis, r) {
      forall a | 0 <= a < |m| && Clear(addrs, a, 1) ensures m[a] == m0[a] {
        if InFront(addrs, recs, a) {
          var r :| r in recs && r.strays && r.blk < |addrs| && addrs[r.blk] - 6 <= a < addrs[r.blk];
          FrontByte(m1, m0, addrs, dis, recs, r, addrs[r.blk], a);
        }
      }
    } else {
      var r :| r in recs && Harms(m0, addrs, dis, r);
      FrontClearOf(m0, addrs, dis, r);
      HarmShows(m, m1, m0, addrs, dis, recs, r, addrs[r.blk]);
    }
  }

  lemma FrontClearOf(m0: Memory, addrs: seq<nat>, dis: Disassembler, r: Rec)
    requires Harms(m0, addrs, dis, r)
    ensures r.blk < |addrs|
  {
  }

  /** Slot memory is still what installation left. */
  lemma SlotSame(m: Memory, m1: Memory, m0: Memory, addrs: seq<nat>, recs: set<Rec>, b: nat, i: nat, lo: nat, hi: nat)
    requires Restoring(m, m1, m0, addrs, recs, b, i) && Separate(addrs, |m1|)
    requires b < |addrs| && i < MAX_PATCH && lo <= hi <= SLOT_SIZE
    ensures |m| == |m1| == |m0|
    ensures var slot := SlotAt(addrs, b, i);
            slot + SLOT_SIZE <= |m| && m[slot + lo..slot + hi] == m1[slot + lo..slot + hi]
  {
    var slot := SlotAt(addrs, b, i);
    forall a | slot <= a < slot + SLOT_SIZE ensures a < |m| && m[a] == m1[a] {
      assert !Clear(addrs, a, 1);
    }
  }

  /** A disassembler that splits any 24 bytes into instructions of whatever length. */
  ghost predicate Works(dis: Disassembler) {
    forall w: seq<Byte> :: |w| == MAX_LEN_TO_DISASSEMBLE ==> Decodes(dis(w), w)
  }

  /** The entry of another function to hook covers address a. */
  ghost predicate InOtherEntry(ms: seq<Module>, org: nat, a: int) {
    exists m, i :: Enabled(ms, m, i) && ms[m].hooks[i].org != org &&
                   ms[m].hooks[i].org <= a < ms[m].hooks[i].org + JMP_LEN
  }

  /** A window the loops may read at org: the code as it is before, but for entries of others. */
  ghost predicate MayRead(m0: Memory, ms: seq<Module>, org: nat, w: seq<Byte>) {
    && |w| == MAX_LEN_TO_DISASSEMBLE && org + |w| <= |m0|
    && forall k :: 0 <= k < |w| && !InOtherEntry(ms, org, org + k) ==> w[k] == m0[org + k]
  }

  /** No module before m has hooks for its block. */
  predicate NoneBefore(ms: seq<Module>, m: nat)
    requires m < |ms|
  {
    forall k :: 0 <= k < m && ms[k].blk == ms[m].blk ==> ms[k].hooks == []
  }

  /** Hook i of module m gets the first slot of its block. */
  predicate InSlot0(ms: seq<Module>, m: int, i: int) {
    Enabled(ms, m, i) && NoneBefore(ms, m) && forall j :: 0 <= j < i ==> ms[m].hooks[j].disabled
  }

  /** A window in a first slot that is filled by a rip-relative instruction, for whose displacement
      the code would look in front of the block: no function to hook lies there. */
  ghost predicate StraysClear(dis: Disassembler, m0: Memory, ms: seq<Module>, addrs: seq<nat>) {
    forall m, i, w, n, j ::
      InSlot0(ms, m, i) && MayRead(m0, ms, ms[m].hooks[i].org, w) && FilledByRip(dis(w)) && Enabled(ms, n, j) ==>
        ms[m].blk < |addrs| && OffFront(addrs, ms[m].blk, ms[n].hooks[j].org, MAX_LEN_TO_DISASSEMBLE)
  }

  /** What is known of a record in terms of the hooks as registered. */
  ghost predicate Known(m0: Memory, ms0: seq<Module>, r: Rec) {
    && Enabled(ms0, r.mod, r.fun) && ms0[r.mod].hooks[r.fun].org == r.org && ms0[r.mod].blk == r.blk
    && MayRead(m0, ms0, r.org, r.w) && (r.idx == 0 <==> InSlot0(ms0, r.mod, r.fun))
  }

  ghost predicate AllKnown(m0: Memory, ms0: seq<Module>, recs: set<Rec>) {
    forall r :: r in recs ==> Known(m0, ms0, r)
  }

  /** A hook strays over no function to hook. */
  lemma KnownOff(dis: Disassembler, m0: Memory, ms0: seq<Module>, addrs: seq<nat>, r: Rec, s: Rec)
    requires StraysClear(dis, m0, ms0, addrs) && Known(m0, ms0, r) && r.strays == Strays(dis, r.idx, r.w)
    requires r.blk < |addrs| && Enabled(ms0, s.mod, s.fun) && ms0[s.mod].hooks[s.fun].org == s.org
    ensures Off(addrs, r, s)
  {
    hide MayRead, FilledByRip, InSlot0;
  }

  lemma KnownAllOff(m: Memory, dis: Disassembler, m0: Memory, ms0: seq<Module>, addrs: seq<nat>, page: nat,
                    recs: set<Rec>, s: Rec)
    requires StraysClear(dis, m0, ms0, addrs) && AllKnown(m0, ms0, recs) && AllHold(m, m0, addrs, dis, page, recs)
    requires Enabled(ms0, s.mod, s.fun) && ms0[s.mod].hooks[s.fun].org == s.org
    ensures forall r :: r in recs ==> r.blk < |addrs| && Off(addrs, r, s)
  {
    hide StraysClear, Known, Off, Holds;
    forall r | r in recs ensures r.blk < |addrs| && Off(addrs, r, s) {
      KnownOff(dis, m0, ms0, addrs, r, s);
    }
  }

  lemma KnownHooks(m0: Memory, ms0: seq<Module>, recs: set<Rec>)
    requires AllKnown(m0, ms0, recs)
    ensures forall r :: r in recs ==> Enabled(ms0, r.mod, r.fun) && ms0[r.mod].hooks[r.fun].org == r.org
  {
    hide MayRead, InSlot0;
  }

  /** The window read for a new hook is one of those it may read. */
  lemma WindowRead(m: Memory, m0: Memory, ms0: seq<Module>, ms: seq<Module>, addrs: seq<nat>, recs: set<Rec>,
                   page: nat, mi: nat, fi: nat, n: Rec)
    requires CodeKept(m, m0, addrs, recs) && Fits(addrs, |m0|, page, n)
    requires ModulesDone(ms0, ms, mi, fi) && Matches(ms, addrs, recs, mi, fi)
    requires forall r :: r in recs ==> Apart(r, n) && r.blk < |addrs| && Off(addrs, r, n)
    ensures |m| == |m0| && MayRead(m0, ms0, n.org, m[n.org..n.org + MAX_LEN_TO_DISASSEMBLE])
  {
    hide ModulesDone, Spaced, InEntry, InOtherEntry, Matches;
    var w := m[n.org..n.org + MAX_LEN_TO_DISASSEMBLE];
    forall k | 0 <= k < |w| && !InOtherEntry(ms0, n.org, n.org + k) ensures w[k] == m0[n.org + k] {
      assert Clear(addrs, n.org + k, 1);
      EntryOfOther(ms0, ms, addrs, recs, mi, fi, n, n.org + k);
      assert !InFront(addrs, recs, n.org + k);
    }
  }

  /** Entries installed so far are entries of other functions. */
  lemma EntryOfOther(ms0: seq<Module>, ms: seq<Module>, addrs: seq<nat>, recs: set<Rec>, mi: nat, fi: nat, n: Rec,
                     a: int)
    requires ModulesDone(ms0, ms, mi, fi) && Matches(ms, addrs, recs, mi, fi) && forall r :: r in recs ==> Apart(r, n)
    ensures InEntry(recs, a) ==> InOtherEntry(ms0, n.org, a)
  {
    hide ModulesDone;
    if InEntry(recs, a) {
      var r :| r in recs && r.org <= a < r.org + JMP_LEN;
      assert Describes(ms, addrs, r) && Apart(r, n);
      HooksStay(ms0, ms, mi, fi, r.mod, r.fun);
      assert Enabled(ms0, r.mod, r.fun) && ms0[r.mod].hooks[r.fun].org == r.org;
    }
  }

  class Hooker {
    const mem: array<Byte>
    const dis: Disassembler
    const page: nat
    var foundLibc: bool
    var isUninstalled: bool
    var modules: seq<Module>
    var blocks: seq<Block>
    var numBlk: nat
    ghost var recs: set<Rec>

    function Addrs(): (a: seq<nat>)
      requires numBlk <= |blocks|
      reads this`blocks, this`numBlk
    {
      AddrsOf(blocks[..numBlk])
    }

    /** What the loops do not change. */
    ghost predicate Setup(ms0: seq<Module>, m0: Memory)
      reads this`blocks, this`numBlk
    {
      |blocks| == MAX_MODULE && numBlk <= MAX_MODULE && Registered(ms0, Addrs(), |m0|, page) && Works(dis)
      && StraysClear(dis, m0, ms0, Addrs())
    }

    /** The invariant of the two loops, at hook fi of module mi. */
    ghost predicate Working(ms0: seq<Module>, m0: Memory, mi: nat, fi: nat, tops: seq<nat>)
      requires numBlk <= |blocks|
      reads this`blocks, this`numBlk, this`modules, this`recs, mem
    {
      && Installed(mem[..], m0, Addrs(), dis, page, recs)
      && ModulesDone(ms0, modules, mi, fi) && Matches(modules, Addrs(), recs, mi, fi)
      && Below(recs, tops) && |tops| == numBlk && AllKnown(m0, ms0, recs)
    }

    /** The duplicate check. */
    method IsDuplicate(hooks: seq<Hook>, i: nat) returns (dup: bool)
      requires i < |hooks|
      ensures dup <==> HasEarlier(hooks, i)
    {
      for j := 0 to i
        invariant forall k :: 0 <= k < j ==> hooks[k].disabled || hooks[k].org != hooks[i].org
      {
        if !hooks[j].disabled {
          if hooks[j].org == hooks[i].org {
            return true;
          }
        }
      }
      return false;
    }

    /** One enabled hook that is no duplicate: slot nFunc of its block. */
    method InstallOne(mi: nat, fi: nat, nFunc: nat, ghost ms0: seq<Module>, ghost m0: Memory, ghost tops: seq<nat>)
      requires Setup(ms0, m0) && Working(ms0, m0, mi, fi, tops)
      requires Enabled(modules, mi, fi) && !HasEarlier(modules[mi].hooks, fi)
      requires ms0[mi].blk < numBlk && tops[ms0[mi].blk] == nFunc < MAX_PATCH && (nFunc == 0 <==> InSlot0(ms0, mi, fi))
      modifies this`modules, this`recs, mem
      ensures Working(ms0, m0, mi, fi + 1, tops[ms0[mi].blk := nFunc + 1])
      ensures |recs| == old(|recs|) + 1
    {
      hide Installed, Matches, Below, ModulesDone, HasEarlier, Spaced, Holds, Frame, Decodes, Apart, Describes;
      hide StraysClear, FilledByRip, MayRead, DiffersIn, Front, AllKnown, InSlot0, Off, Change, Strays, Known;
      var blk := modules[mi].blk;
      var h := modules[mi].hooks[fi];
      BlocksStay(ms0, modules, mi, fi);
      HooksStay(ms0, modules, mi, fi, mi, fi);
      LengthStays(mem[..], m0, Addrs(), dis, page, recs);
      var slot, w := blocks[blk].addr + 64 * nFunc, mem[h.org..h.org + MAX_LEN_TO_DISASSEMBLE];
      ghost var n := Rec(mi, fi, blk, nFunc, h.org, h.newFunc, w, Strays(dis, nFunc, w));
      ghost var m1, ms := mem[..], modules;
      SlotClear(m1, m0, Addrs(), dis, page, recs, n);
      NewIsApart(ms0, modules, Addrs(), recs, tops, mi, fi, n);
      NewIsKnown(m1, m0, ms0, modules, Addrs(), dis, recs, page, mi, fi, n);
      var saved := WriteSlot(mem, slot, h.org, h.newFunc, dis(w), h.org - slot);
      NewIsWritten(m1, mem[..], Addrs(), dis, n, slot, h.org - slot);
      AddHook(m1, mem[..], m0, Addrs(), dis, page, recs, n);
      var h' := Hook(false, h.org, h.newFunc, slot);
      StepModules(ms0, ms, mi, fi, h');
      MatchesHook(ms, Addrs(), recs, mi, fi, h', n);
      OneMoreBelow(recs, tops, n);
      OneMoreKnown(m0, ms0, recs, n);
      modules := SetHook(modules, mi, fi, h');
      recs := recs + {n};
    }

    /** One round of the inner loop: disabled hooks and duplicates are passed over. */
    method InstallStep(mi: nat, fi: nat, nFunc: nat, ghost ms0: seq<Module>, ghost m0: Memory, ghost tops: seq<nat>)
      returns (placed: bool)
      requires Setup(ms0, m0) && Working(ms0, m0, mi, fi, tops)
      requires mi < |modules| && fi < |modules[mi].hooks| && nFunc < MAX_PATCH
      requires modules[mi].blk < numBlk ==> tops[modules[mi].blk] == nFunc
      requires mi < |ms0| && fi < |ms0[mi].hooks| && (nFunc == 0 <==> NoneBefore(ms0, mi) && NoneYet(ms0[mi].hooks, fi))
      modifies this`modules, this`recs, mem
      ensures placed ==> old(modules[mi].blk) < numBlk
      ensures placed <==> !ms0[mi].hooks[fi].disabled && !HasEarlier(ms0[mi].hooks, fi)
      ensures Working(ms0, m0, mi, fi + 1, if placed then tops[old(modules[mi].blk) := nFunc + 1] else tops)
      ensures |recs| == old(|recs|) + (if placed then 1 else 0)
    {
      hide Installed, Matches, Below, ModulesDone, HasEarlier, Registered, Works, SetHook, StraysClear, AllKnown,
        NoneBefore, NoneYet;
      var h := modules[mi].hooks[fi];
      NotReached(ms0, modules, mi, fi);
      if h.disabled {
        SetSame(modules, mi, fi);
        PassHook(ms0, modules, Addrs(), recs, mi, fi, h);
        return false;
      }
      var dup := IsDuplicate(modules[mi].hooks, fi);
      if dup {
        var h' := h.(disabled := true, org := 0);
        PassHook(ms0, modules, Addrs(), recs, mi, fi, h');
        modules := SetHook(modules, mi, fi, h');
        return false;
      }
      EnabledHasBlock(ms0, modules, Addrs(), |m0|, page, mi, fi);
      FirstSlot(ms0, mi, fi);
      InstallOne(mi, fi, nFunc, ms0, m0, tops);
      return true;
    }

    /** The inner loop, over the hooks of one module, from slot base on; gaps are left for those
        not installed. */
    method InstallHooks(mi: nat, base: nat, ghost ms0: seq<Module>, ghost m0: Memory, ghost tops: seq<nat>)
      returns (count: nat, ghost now: seq<nat>)
      requires Setup(ms0, m0) && Working(ms0, m0, mi, 0, tops) && mi < |ms0| && mi < |modules|
      requires base + |ms0[mi].hooks| <= MAX_PATCH && (base == 0 <==> NoneBefore(ms0, mi))
      requires modules[mi].blk < numBlk ==> tops[modules[mi].blk] == base
      modifies this`modules, this`recs, mem
      ensures mi < |modules| && modules[mi].blk == old(modules[mi].blk) && |modules[mi].hooks| == |ms0[mi].hooks|
      ensures Working(ms0, m0, mi, |ms0[mi].hooks|, now) && |recs| == old(|recs|) + count && count <= |ms0[mi].hooks|
      ensures var blk := modules[mi].blk; now == if blk < numBlk then tops[blk := base + count] else tops
    {
      hide Installed, Matches, Below, ModulesDone, HasEarlier, Registered, Works, StraysClear, AllKnown, NoneBefore,
        NoneYet, AddrsOf;
      BlocksStay(ms0, modules, mi, 0);
      NobodyYet(ms0[mi].hooks);
      ghost var blk := modules[mi].blk;
      count, now := 0, tops;
      var fi := 0;
      while fi < |modules[mi].hooks|
        invariant mi < |modules| && 0 <= fi <= |ms0[mi].hooks| == |modules[mi].hooks| && modules[mi].blk == blk
        invariant Working(ms0, m0, mi, fi, now)
        invariant count <= fi && |recs| == old(|recs|) + count
        invariant now == if blk < numBlk then tops[blk := base + count] else tops
        invariant count == 0 <==> NoneYet(ms0[mi].hooks, fi)
        modifies this`modules, this`recs, mem
        decreases |ms0[mi].hooks| - fi
      {
        NoneYetNext(ms0[mi].hooks, fi);
        var placed := InstallStep(mi, fi, base + count, ms0, m0, now);
        if placed {
          now := now[blk := base + count + 1];
          count := count + 1;
        }
        BlocksStay(ms0, modules, mi, fi + 1);
        fi := fi + 1;
      }
    }

    /** One module. Its block counts all its hooks as slots. */
    method InstallModule(mi: nat, ghost ms0: seq<Module>, ghost m0: Memory) returns (count: nat)
      requires Setup(ms0, m0) && Working(ms0, m0, mi, 0, TopsOf(blocks[..numBlk]))
      requires mi < |ms0| && TopsBelow(blocks, HookCount(ms0, mi)) && TopsZero(blocks, ms0, mi)
      modifies this`modules, this`recs, this`blocks, mem
      ensures Setup(ms0, m0) && Working(ms0, m0, mi + 1, 0, TopsOf(blocks[..numBlk]))
      ensures Addrs() == old(Addrs()) && TopsBelow(blocks, HookCount(ms0, mi + 1)) && TopsZero(blocks, ms0, mi + 1)
      ensures |recs| == old(|recs|) + count
    {
      hide Installed, Matches, Below, ModulesDone, HasEarlier, Registered, Works, StraysClear, AllKnown, NoneBefore,
        TopsZero, AddrsOf;
      BlocksStay(ms0, modules, mi, 0);
      RegisteredModule(ms0, Addrs(), |m0|, page, mi);
      BlockIsFirst(blocks, ms0, mi);
      var blk := modules[mi].blk;
      ghost var tops, addrs := TopsOf(blocks[..numBlk]), Addrs();
      ghost var now;
      count, now := InstallHooks(mi, blocks[blk].numTrampoline, ms0, m0, tops);
      NextModule(ms0, modules, addrs, recs, mi);
      var b := blocks[blk];
      TopsStillZero(blocks, ms0, mi);
      blocks := blocks[blk := b.(numTrampoline := b.numTrampoline + |modules[mi].hooks|)];
      assert Addrs() == addrs;
      RaiseTops(recs, now, TopsOf(blocks[..numBlk]));
    }

    /** What registration, address lookup, block allocation and mmap have left. */
    ghost predicate Ready()
      reads this`modules, this`blocks, this`numBlk, mem
    {
      && Setup(modules, mem[..]) && Separate(Addrs(), mem.Length)
      && (forall b :: 0 <= b < numBlk ==> ZeroAt(mem[..], blocks[b].addr, MIN_MEM_SIZE))
      && TopsBelow(blocks, 0)
    }

    /** All enabled hooks are in place, over the memory m0, and no block table entry is too high. */
    ghost predicate Hooked(m0: Memory)
      reads this`blocks, this`numBlk, this`recs, mem
    {
      && numBlk <= MAX_MODULE == |blocks| && TopsBelow(blocks, MAX_PATCH)
      && Installed(mem[..], m0, Addrs(), dis, page, recs) && Below(recs, TopsOf(blocks[..numBlk]))
    }

    /** The outer loop. */
    method InstallAll() returns (installed: nat)
      requires Ready()
      modifies this`modules, this`recs, this`blocks, mem
      ensures Hooked(old(mem[..])) && Addrs() == old(Addrs())
      ensures ModulesDone(old(modules), modules, |modules|, 0)
      ensures Matches(modules, Addrs(), recs, |modules|, 0) && installed == |recs|
      ensures AllKnown(old(mem[..]), old(modules), recs)
    {
      hide Matches, ModulesDone, HasEarlier, Works, Installed, Below, Registered, Separate, ZeroAt, StraysClear,
        AllKnown;
      ghost var ms0, m0, addrs := modules, mem[..], Addrs();
      recs := {};
      NoHooksYet(m0, addrs, dis, page);
      RegisteredCount(ms0, addrs, |m0|, page);
      NothingDone(ms0, addrs, TopsOf(blocks[..numBlk]));
      NothingKnown(m0, ms0);
      installed := 0;
      var mi := 0;
      while mi < |modules|
        invariant 0 <= mi <= |modules| == |ms0|
        invariant Setup(ms0, m0) && Addrs() == addrs && Working(ms0, m0, mi, 0, TopsOf(blocks[..numBlk]))
        invariant TopsBelow(blocks, HookCount(ms0, mi)) && TopsZero(blocks, ms0, mi) && installed == |recs|
        modifies this`modules, this`recs, this`blocks, mem
        decreases |ms0| - mi
      {
        var count := InstallModule(mi, ms0, m0);
        installed := installed + count;
        mi := mi + 1;
        BlocksStay(ms0, modules, mi, 0);
      }
    }

    /** Installs every enabled hook once, and returns how many. */
    method InstallHook() returns (installed: nat)
      requires foundLibc ==> Ready()
      modifies this`modules, this`recs, this`blocks, mem
      ensures !foundLibc ==> installed == 0 && unchanged(this) && unchanged(mem)
      ensures foundLibc ==> Hooked(old(mem[..])) && Addrs() == old(Addrs())
      ensures foundLibc ==> ModulesDone(old(modules), modules, |modules|, 0)
      ensures foundLibc ==> Matches(modules, Addrs(), recs, |modules|, 0) && installed == |recs|
      ensures foundLibc ==> AllKnown(old(mem[..]), old(modules), recs)
    {
      hide Ready, Hooked, Matches, ModulesDone, AllKnown;
      if !foundLibc {
        return 0;
      }
      installed := InstallAll();
    }

    /** The slots of one block. */
    method RestoreBlock(b: nat, ghost m1: Memory, ghost m0: Memory)
      requires numBlk <= MAX_MODULE == |blocks| && b < numBlk && TopsBelow(blocks, MAX_PATCH) && page > 0
      requires Installed(m1, m0, Addrs(), dis, page, recs) && Restoring(mem[..], m1, m0, Addrs(), recs, b, 0)
      requires Below(recs, TopsOf(blocks[..numBlk]))
      modifies mem
      ensures Restoring(mem[..], m1, m0, Addrs(), recs, b + 1, 0)
    {
      hide Installed, Below, Restoring;
      var i := 0;
      while i < blocks[b].numTrampoline
        invariant 0 <= i <= blocks[b].numTrampoline && Restoring(mem[..], m1, m0, Addrs(), recs, b, i)
        modifies mem
      {
        RestoreOne(b, i, m1, m0);
        i := i + 1;
      }
      BlockRestored(mem[..], m1, m0, Addrs(), recs, TopsOf(blocks[..numBlk]), b);
    }

    /** Restores every entry. Unused slots are zero, which the code takes for "no function". */
    method UninstallHook(ghost m0: Memory)
      requires foundLibc && !isUninstalled ==> Hooked(m0) && page > 0
      modifies this`isUninstalled, this`blocks, mem
      ensures !foundLibc || old(isUninstalled) ==> unchanged(this) && unchanged(mem)
      ensures foundLibc && !old(isUninstalled) ==>
        && isUninstalled && Returned(mem[..], old(mem[..]), m0, old(Addrs()), recs)
        && (CodeIs(mem[..], m0, old(Addrs())) <==> forall r :: r in recs ==> !Harms(m0, old(Addrs()), dis, r))
    {
      hide Hooked, CodeIs, Returned, Harms, AddrsOf;
      if !foundLibc {
        return;
      }
      if isUninstalled {
        return;
      }
      isUninstalled := true;
      RestoreAll(m0);
    }

    /** The sweep over all blocks, which are then unmapped. */
    method RestoreAll(ghost m0: Memory)
      requires Hooked(m0) && page > 0
      modifies this`blocks, mem
      ensures Returned(mem[..], old(mem[..]), m0, old(Addrs()), recs)
      ensures CodeIs(mem[..], m0, old(Addrs())) <==> forall r :: r in recs ==> !Harms(m0, old(Addrs()), dis, r)
    {
      hide Installed, Below, Restoring, Unmapped, CodeIs, AddrsOf, TopsOf, Returned, Harms;
      ghost var addrs, m1, tops := Addrs(), mem[..], TopsOf(blocks[..numBlk]);
      StartRestoring(m1, m0, addrs, dis, page, recs);
      var b := 0;
      while b < numBlk
        invariant 0 <= b <= numBlk && Restoring(mem[..], m1, m0, addrs, recs, b, 0)
        modifies mem
      {
        RestoreBlock(b, m1, m0);
        b := b + 1;
      }
      AllRestored(mem[..], m1, m0, addrs, recs, tops);
      ReturnedExactly(mem[..], m1, m0, addrs, dis, page, recs);
      blocks := Unmapped(blocks, numBlk);
    }

    /** Installing and then removing the hooks leaves all code as it was, exactly if no hook in the
        first slot of a block changes what is in front of the block. If no other entry lies in the
        windows of these hooks, that can be told from the code before. */
    method InstallThenUninstall() returns (installed: nat)
      requires Ready() && page > 0 && !isUninstalled
      modifies this, mem
      ensures CodeIs(mem[..], old(mem[..]), old(Addrs())) <==>
              forall r :: r in recs ==> !Harms(old(mem[..]), old(Addrs()), dis, r)
      ensures Secluded(old(modules)) ==>
        (CodeIs(mem[..], old(mem[..]), old(Addrs())) <==> Harmless(old(mem[..]), old(modules), old(Addrs()), dis))
    {
      hide Registered, Works, StraysClear, Separate, ZeroAt, Installed, CodeIs, Returned, Harms, Matches, ModulesDone,
        AllKnown, Secluded, Harmless, Below, AddrsOf, TopsOf, TopsBelow;
      ghost var m0, ms0, addrs := mem[..], modules, Addrs();
      foundLibc := true;
      installed := InstallHook();
      ghost var m1, ms := mem[..], modules;
      FromInput(m1, m0, ms0, ms, addrs, dis, page, recs);
      UninstallHook(m0);
    }

    /** One slot of the sweep. */
    method RestoreOne(b: nat, i: nat, ghost m1: Memory, ghost m0: Memory)
      requires numBlk <= MAX_MODULE == |blocks| && b < numBlk && i < blocks[b].numTrampoline
      requires TopsBelow(blocks, MAX_PATCH) && page > 0
      requires Installed(m1, m0, Addrs(), dis, page, recs) && Restoring(mem[..], m1, m0, Addrs(), recs, b, i)
      modifies mem
      ensures Restoring(mem[..], m1, m0, Addrs(), recs, b, i + 1)
    {
      hide Installed, Restoring, Decode, Written, ZeroAt, Spread, AllOff;
      ghost var addrs, m := Addrs(), mem[..];
      var slot := blocks[b].addr + 64 * i;
      BlocksSeparate(m1, m0, addrs, dis, page, recs);
      SlotSame(m, m1, m0, addrs, recs, b, i, ADDR_AT, RECORD_END);
      SlotSame(m, m1, m0, addrs, recs, b, i, ORG_CODE_AT, ORG_CODE_AT + 5);
      var field := mem[slot + ADDR_AT..slot + RECORD_END];
      var org := Decode(field);
      if org / page != 0 {
        ghost var r := UsedSlot(m1, m0, addrs, dis, page, recs, b, i);
        Poke(mem, org, mem[slot + ORG_CODE_AT..slot + ORG_CODE_AT + 5]);
        RestoreStep(m, mem[..], m1, m0, addrs, recs, b, i, r);
      } else {
        UnusedSlot(m1, m0, addrs, dis, page, recs, b, i);
        SkipStep(m, m1, m0, addrs, recs, b, i);
      }
    }
  }

  lemma NewIsKnown(m: Memory, m0: Memory, ms0: seq<Module>, ms: seq<Module>, addrs: seq<nat>, dis: Disassembler,
                   recs: set<Rec>, page: nat, mi: nat, fi: nat, n: Rec)
    requires Installed(m, m0, addrs, dis, page, recs) && Fits(addrs, |m0|, page, n) && StraysClear(dis, m0, ms0, addrs)
    requires ModulesDone(ms0, ms, mi, fi) && Matches(ms, addrs, recs, mi, fi) && AllKnown(m0, ms0, recs)
    requires forall r :: r in recs ==> Apart(r, n)
    requires Enabled(ms, mi, fi) && n.org == ms[mi].hooks[fi].org && n.mod == mi && n.fun == fi && n.blk == ms[mi].blk
    requires |m| == |m0| && n.w == m[n.org..n.org + MAX_LEN_TO_DISASSEMBLE] && n.strays == Strays(dis, n.idx, n.w)
    requires n.idx == 0 <==> InSlot0(ms0, mi, fi)
    ensures Known(m0, ms0, n) && n.blk < |addrs| && Off(addrs, n, n)
    ensures forall r :: r in recs ==> r.blk < |addrs| && Off(addrs, r, n) && Off(addrs, n, r)
  {
    FitsInBlock(addrs, |m0|, page, n);
    HooksStay(ms0, ms, mi, fi, mi, fi);
    hide AllHold, RestZero, SawOriginal, Separate, Spread, CodeKept, Fits, ModulesDone, Matches, MayRead, FilledByRip,
      AllOff, FrontsAre, StraysClear, AllKnown, Apart, Off, InSlot0, Strays;
    KnownAllOff(m, dis, m0, ms0, addrs, page, recs, n);
    WindowRead(m, m0, ms0, ms, addrs, recs, page, mi, fi, n);
    KnownOff(dis, m0, ms0, addrs, n, n);
    KnownHooks(m0, ms0, recs);
    forall r | r in recs ensures Off(addrs, n, r) {
      KnownOff(dis, m0, ms0, addrs, n, r);
    }
  }

  lemma NewIsWritten(m: Memory, m': Memory, addrs: seq<nat>, dis: Disassembler, n: Rec, slot: nat, delta: int)
    requires n.blk < |addrs| && slot == SlotAt(addrs, n.blk, n.idx) && n.strays == Strays(dis, n.idx, n.w)
    requires delta == n.org - slot && Off(addrs, n, n)
    requires DiffersIn(m, m', slot - 6, SLOT_SIZE + 6, n.org) && (!FilledByRip(dis(n.w)) ==> Frame(m, m', slot, n.org))
    requires n.org + 5 <= slot - 6 || slot <= n.org ==> Front(m, m', slot, dis(n.w), delta)
    ensures Change(m, m', addrs, n)
    ensures n.strays ==> Front(m, m', addrs[n.blk], dis(n.w), n.org - addrs[n.blk])
  {
    hide FilledByRip, Front, DiffersIn;
    WrittenChange(m, m', addrs, dis, n, slot);
  }

  lemma NothingKnown(m0: Memory, ms0: seq<Module>)
    ensures AllKnown(m0, ms0, {})
  {
  }

  lemma OneMoreKnown(m0: Memory, ms0: seq<Module>, recs: set<Rec>, n: Rec)
    requires AllKnown(m0, ms0, recs) && Known(m0, ms0, n)
    ensures AllKnown(m0, ms0, recs + {n})
  {
    hide Known;
  }

  // ----- which hook gets the first slot

  /** The first n hooks are disabled. */
  predicate NoneYet(hooks: seq<Hook>, n: nat) { forall j :: 0 <= j < |hooks| && j < n ==> hooks[j].disabled }

  lemma NobodyYet(hooks: seq<Hook>)
    ensures NoneYet(hooks, 0)
  {
  }

  lemma NoneYetNext(hooks: seq<Hook>, n: nat)
    requires n < |hooks|
    ensures NoneYet(hooks, n + 1) <==> NoneYet(hooks, n) && !(!hooks[n].disabled && !HasEarlier(hooks, n))
  {
  }

  lemma FirstSlot(ms: seq<Module>, m: nat, i: nat)
    requires m < |ms| && i < |ms[m].hooks| && !ms[m].hooks[i].disabled
    ensures InSlot0(ms, m, i) <==> NoneBefore(ms, m) && NoneYet(ms[m].hooks, i)
  {
  }

  /** The hook at hand is as registered. */
  lemma NotReached(ms0: seq<Module>, ms: seq<Module>, mi: nat, fi: nat)
    requires ModulesDone(ms0, ms, mi, fi) && mi < |ms| && fi < |ms[mi].hooks|
    ensures mi < |ms0| && fi < |ms0[mi].hooks| && ms0[mi].hooks[fi] == ms[mi].hooks[fi]
    ensures HasEarlier(ms[mi].hooks, fi) <==> HasEarlier(ms0[mi].hooks, fi)
  {
    SameEarlier(ms0[mi].hooks, ms[mi].hooks, fi);
    hide HasEarlier;
  }

  /** A block has no slots used exactly if no module before m has hooks for it. */
  predicate TopsZero(blocks: seq<Block>, ms: seq<Module>, m: nat)
    requires m <= |ms|
  {
    forall b :: 0 <= b < |blocks| ==>
      (blocks[b].numTrampoline == 0 <==> forall k :: 0 <= k < m && ms[k].blk == b ==> ms[k].hooks == [])
  }

  lemma BlockIsFirst(blocks: seq<Block>, ms: seq<Module>, m: nat)
    requires m < |ms| && TopsZero(blocks, ms, m) && ms[m].blk < |blocks|
    ensures blocks[ms[m].blk].numTrampoline == 0 <==> NoneBefore(ms, m)
  {
  }

  lemma TopsStillZero(blocks: seq<Block>, ms: seq<Module>, m: nat)
    requires m < |ms| && TopsZero(blocks, ms, m) && ms[m].blk < |blocks|
    ensures var b := blocks[ms[m].blk];
            TopsZero(blocks[ms[m].blk := b.(numTrampoline := b.numTrampoline + |ms[m].hooks|)], ms, m + 1)
  {
  }

  // ----- the harm, told from the input

  /** No entry of another function lies in the window of a hook in a first slot. */
  ghost predicate Secluded(ms: seq<Module>) {
    forall m, i, n, j :: InSlot0(ms, m, i) && Enabled(ms, n, j) ==>
      var a, b := ms[m].hooks[i].org, ms[n].hooks[j].org;
      a == b || b + JMP_LEN <= a || a + MAX_LEN_TO_DISASSEMBLE <= b
  }

  /** What is in front of the block is free code, and the window at org, filled by a rip-relative
      instruction, has four bytes of it for a displacement. */
  predicate HarmsAt(m0: Memory, addrs: seq<nat>, dis: Disassembler, blk: nat, org: nat) {
    && blk < |addrs| && 6 <= addrs[blk] <= |m0| && org + MAX_LEN_TO_DISASSEMBLE <= |m0|
    && var b := addrs[blk];
    Clear(addrs, b - 6, 6) && (org - b) % TWO32 != 0 && Struck(m0[b - 6..b], dis(m0[org..org + MAX_LEN_TO_DISASSEMBLE]))
  }

  ghost predicate Harmless(m0: Memory, ms: seq<Module>, addrs: seq<nat>, dis: Disassembler) {
    forall m, i :: InSlot0(ms, m, i) ==> !HarmsAt(m0, addrs, dis, ms[m].blk, ms[m].hooks[i].org)
  }

  /** What a secluded hook reads is the code as it was. */
  lemma SecludedWindow(m0: Memory, ms0: seq<Module>, r: Rec)
    requires Known(m0, ms0, r) && Secluded(ms0) && r.idx == 0
    ensures r.org + MAX_LEN_TO_DISASSEMBLE <= |m0| && r.w == m0[r.org..r.org + MAX_LEN_TO_DISASSEMBLE]
  {
    hide InSlot0;
    forall a | r.org <= a < r.org + |r.w| ensures !InOtherEntry(ms0, r.org, a) {
    }
    assert forall k :: 0 <= k < |r.w| ==> r.w[k] == m0[r.org + k];
  }

  lemma SameHarm(m0: Memory, ms0: seq<Module>, addrs: seq<nat>, dis: Disassembler, r: Rec)
    requires Known(m0, ms0, r) && Secluded(ms0) && r.idx == 0 && r.strays == Strays(dis, r.idx, r.w)
    ensures Harms(m0, addrs, dis, r) <==> HarmsAt(m0, addrs, dis, r.blk, r.org)
  {
    SecludedWindow(m0, ms0, r);
    hide Known, Secluded, RipText, Dec32, Clear;
  }

  lemma {:induction false} HarmsFromInput(m0: Memory, ms0: seq<Module>, addrs: seq<nat>, dis: Disassembler,
                                          recs: set<Rec>)
    requires AllKnown(m0, ms0, recs) && Secluded(ms0)
    requires forall r :: r in recs ==> r.strays == Strays(dis, r.idx, r.w)
    requires forall m, i :: InSlot0(ms0, m, i) ==> Recorded(recs, m, i)
    ensures (forall r :: r in recs ==> !Harms(m0, addrs, dis, r)) <==> Harmless(m0, ms0, addrs, dis)
  {
    hide Secluded, Struck, InSlot0, HarmsAt, MayRead;
    if Harmless(m0, ms0, addrs, dis) {
      forall r | r in recs ensures !Harms(m0, addrs, dis, r) {
        if r.idx == 0 {
          SameHarm(m0, ms0, addrs, dis, r);
        }
      }
    }
    if forall r :: r in recs ==> !Harms(m0, addrs, dis, r) {
      forall m, i | InSlot0(ms0, m, i) ensures !HarmsAt(m0, addrs, dis, ms0[m].blk, ms0[m].hooks[i].org) {
        assert Recorded(recs, m, i);
        var r :| r in recs && r.mod == m && r.fun == i;
        assert Known(m0, ms0, r);
        SameHarm(m0, ms0, addrs, dis, r);
      }
    }
  }

  /** The hook for a first slot is installed: it is enabled and no duplicate. */
  lemma FirstIsRecorded(ms0: seq<Module>, ms: seq<Module>, addrs: seq<nat>, recs: set<Rec>, m: int, i: int)
    requires ModulesDone(ms0, ms, |ms|, 0) && Matches(ms, addrs, recs, |ms|, 0) && InSlot0(ms0, m, i)
    ensures Recorded(recs, m, i)
  {
    assert !HasEarlier(ms0[m].hooks, i);
    assert HooksDone(ms0[m].hooks, ms[m].hooks, |ms0[m].hooks|);
    hide HasEarlier, NoneBefore, Recorded;
    assert Enabled(ms, m, i) && Reached(m, i, |ms|, 0);
  }

  lemma FromInput(m1: Memory, m0: Memory, ms0: seq<Module>, ms: seq<Module>, addrs: seq<nat>, dis: Disassembler,
                  page: nat, recs: set<Rec>)
    requires Installed(m1, m0, addrs, dis, page, recs) && AllKnown(m0, ms0, recs)
    requires ModulesDone(ms0, ms, |ms|, 0) && Matches(ms, addrs, recs, |ms|, 0)
    ensures Secluded(ms0) ==>
              ((forall r :: r in recs ==> !Harms(m0, addrs, dis, r)) <==> Harmless(m0, ms0, addrs, dis))
  {
    hide Installed, AllKnown, ModulesDone, Matches, Secluded, Harms, Harmless, NoneBefore, Recorded, Strays;
    HeldStrays(m1, m0, addrs, dis, page, recs);
    forall m, i | InSlot0(ms0, m, i) ensures Recorded(recs, m, i) {
      FirstIsRecorded(ms0, ms, addrs, recs, m, i);
    }
    if Secluded(ms0) {
      HarmsFromInput(m0, ms0, addrs, dis, recs);
    }
  }

  lemma HeldStrays(m: Memory, before: Memory, addrs: seq<nat>, dis: Disassembler, page: nat, recs: set<Rec>)
    requires Installed(m, before, addrs, dis, page, recs)
    ensures forall r :: r in recs ==> r.strays == Strays(dis, r.idx, r.w)
  {
    hide Holds, CodeKept, RestZero, SawOriginal, AllOff, FrontsAre, Spread, Separate, Strays;
  }

  lemma BlocksSeparate(m: Memory, before: Memory, addrs: seq<nat>, dis: Disassembler, page: nat, recs: set<Rec>)
    requires Installed(m, before, addrs, dis, page, recs)
    ensures |m| == |before| && Separate(addrs, |m|) && Spread(recs) && AllOff(addrs, recs)
  {
    hide AllHold, CodeKept, RestZero, SawOriginal, Spread, Separate, AllOff, FrontsAre;
    UntouchedLength(m, before, addrs, recs);
  }

  lemma {:induction false} DecodeZeros(b: seq<Byte>)
    requires forall k :: 0 <= k < |b| ==> b[k] == 0
    ensures Decode(b) == 0
  {
    if b != [] {
      DecodeZeros(b[1..]);
    }
  }

  lemma SlotOfNobody(m: Memory, addrs: seq<nat>, recs: set<Rec>, b: nat, i: nat)
    requires RestZero(m, addrs, recs) && b < |addrs| && i < MAX_PATCH && Unused(recs, b, i)
    ensures var a := SlotAt(addrs, b, i) + ADDR_AT; a + 8 <= |m| && Decode(m[a..a + 8]) == 0
  {
    hide Decode, Unused;
    var a := SlotAt(addrs, b, i) + ADDR_AT;
    assert ZeroAt(m, a, 8);
    DecodeZeros(m[a..a + 8]);
  }

  /** What the slot of an installed hook says. */
  lemma SlotOfHook(m: Memory, before: Memory, addrs: seq<nat>, dis: Disassembler, page: nat, r: Rec)
    requires Fits(addrs, |before|, page, r) && RecHolds(m, before, addrs, dis, r)
    ensures var slot := SlotAt(addrs, r.blk, r.idx);
            && slot + SLOT_SIZE <= |m| && Decode(m[slot + ADDR_AT..slot + RECORD_END]) == r.org
            && r.org + MAX_LEN_TO_DISASSEMBLE <= |before|
            && m[slot + ORG_CODE_AT..slot + ORG_CODE_AT + 5] == before[r.org..r.org + JMP_LEN]
  {
    hide Decode, Encode, Decodes, EntryJump, Bounce, Saved, Fixups.Image, Fixups.Imaged;
    Pow256At8();
    DecodeEncode(8, r.org);
  }

  lemma FirstPage(a: nat, page: nat)
    requires page > 0
    ensures a / page == 0 <==> a < page
  {
  }

  lemma UsedSlot(m1: Memory, m0: Memory, addrs: seq<nat>, dis: Disassembler, page: nat, recs: set<Rec>,
                 b: nat, i: nat) returns (r: Rec)
    requires Installed(m1, m0, addrs, dis, page, recs) && b < |addrs| && i < MAX_PATCH && page > 0
    requires var a := SlotAt(addrs, b, i) + ADDR_AT; a + 8 <= |m1| && Decode(m1[a..a + 8]) / page != 0
    ensures r in recs && r.blk == b && r.idx == i && Clear(addrs, r.org, MAX_LEN_TO_DISASSEMBLE)
    ensures var slot := SlotAt(addrs, b, i);
            && slot + SLOT_SIZE <= |m1| && Decode(m1[slot + ADDR_AT..slot + RECORD_END]) == r.org
            && r.org + MAX_LEN_TO_DISASSEMBLE <= |m0|
            && m1[slot + ORG_CODE_AT..slot + ORG_CODE_AT + 5] == m0[r.org..r.org + JMP_LEN]
  {
    hide Decode, CodeKept, SawOriginal, Separate, Spread, RecHolds, RestZero;
    FirstPage(0, page);
    if Unused(recs, b, i) {
      SlotOfNobody(m1, addrs, recs, b, i);
    }
    r :| r in recs && r.blk == b && r.idx == i;
    SlotOfHook(m1, m0, addrs, dis, page, r);
  }

  lemma UnusedSlot(m1: Memory, m0: Memory, addrs: seq<nat>, dis: Disassembler, page: nat, recs: set<Rec>,
                   b: nat, i: nat)
    requires Installed(m1, m0, addrs, dis, page, recs) && b < |addrs| && i < MAX_PATCH && page > 0
    requires var a := SlotAt(addrs, b, i) + ADDR_AT; a + 8 <= |m1| && Decode(m1[a..a + 8]) / page == 0
    ensures Unused(recs, b, i)
  {
    hide Decode, CodeKept, SawOriginal, Separate, Spread, RecHolds, RestZero;
    forall r | r in recs ensures r.blk != b || r.idx != i {
      FirstPage(r.org, page);
      if r.blk == b && r.idx == i {
        SlotOfHook(m1, m0, addrs, dis, page, r);
      }
    }
  }

  lemma SkipStep(m: Memory, m1: Memory, m0: Memory, addrs: seq<nat>, recs: set<Rec>, b: nat, i: nat)
    requires Restoring(m, m1, m0, addrs, recs, b, i) && Unused(recs, b, i)
    ensures Restoring(m, m1, m0, addrs, recs, b, i + 1)
  {
    forall a | Pending(recs, b, i, a) ensures Pending(recs, b, i + 1, a) {
      var r :| r in recs && (r.blk > b || (r.blk == b && r.idx >= i)) && r.org <= a < r.org + JMP_LEN;
      assert r.blk > b || r.idx >= i + 1;
    }
  }

  /** Restoring r clears nothing but its own entry. */
  lemma StillPending(recs: set<Rec>, b: nat, i: nat, r: Rec, a: int)
    requires Spread(recs) && r in recs && r.blk == b && r.idx == i && !(r.org <= a < r.org + JMP_LEN)
    ensures Pending(recs, b, i, a) ==> Pending(recs, b, i + 1, a)
  {
    if Pending(recs, b, i, a) {
      var s :| s in recs && (s.blk > b || (s.blk == b && s.idx >= i)) && s.org <= a < s.org + JMP_LEN;
      assert Apart(r, s);
    }
  }

  lemma RestoreStep(m: Memory, m': Memory, m1: Memory, m0: Memory, addrs: seq<nat>, recs: set<Rec>,
                    b: nat, i: nat, r: Rec)
    requires Restoring(m, m1, m0, addrs, recs, b, i) && r in recs && r.blk == b && r.idx == i && Spread(recs)
    requires Clear(addrs, r.org, MAX_LEN_TO_DISASSEMBLE) && r.org + MAX_LEN_TO_DISASSEMBLE <= |m| && AllOff(addrs, recs)
    requires m' == Written(m, r.org, m0[r.org..r.org + JMP_LEN])
    ensures Restoring(m', m1, m0, addrs, recs, b, i + 1)
  {
    hide Written, Spread, Clear, InFront, AllOff;
    WrittenOutside(m, r.org, m0[r.org..r.org + JMP_LEN]);
    EntryIsCode(addrs, recs, r);
    forall a | 0 <= a < |m'| && Clear(addrs, a, 1) && !InFront(addrs, recs, a) && !Pending(recs, b, i + 1, a)
      ensures m'[a] == m0[a]
    {
      if r.org <= a < r.org + JMP_LEN {
        assert m'[r.org..r.org + JMP_LEN][a - r.org] == m0[r.org..r.org + JMP_LEN][a - r.org];
      } else {
        StillPending(recs, b, i, r, a);
      }
    }
  }

  /** Entries lie in no block, and in no front. */
  lemma EntryIsCode(addrs: seq<nat>, recs: set<Rec>, r: Rec)
    requires AllOff(addrs, recs) && r in recs && Clear(addrs, r.org, MAX_LEN_TO_DISASSEMBLE)
    ensures forall a: nat :: r.org <= a < r.org + JMP_LEN ==> Clear(addrs, a, 1) && !InFront(addrs, recs, a)
  {
  }

  // ----- the loops of install_hook

  lemma RegisteredModule(ms: seq<Module>, addrs: seq<nat>, size: nat, page: nat, m: nat)
    requires Registered(ms, addrs, size, page) && m < |ms|
    ensures ms[m].blk < MAX_MODULE && HookCount(ms, m + 1) == HookCount(ms, m) + |ms[m].hooks| <= MAX_PATCH
  {
    CountGrows(ms, m + 1, |ms|);
  }

  lemma RegisteredCount(ms: seq<Module>, addrs: seq<nat>, size: nat, page: nat)
    requires Registered(ms, addrs, size, page)
    ensures HookCount(ms, 0) == 0 && HookCount(ms, |ms|) <= MAX_PATCH
  {
  }

  lemma EnabledHasBlock(ms0: seq<Module>, ms: seq<Module>, addrs: seq<nat>, size: nat, page: nat, mi: nat, fi: nat)
    requires Registered(ms0, addrs, size, page) && ModulesDone(ms0, ms, mi, fi) && Enabled(ms, mi, fi)
    ensures ms0[mi].blk == ms[mi].blk < |addrs|
  {
    HooksStay(ms0, ms, mi, fi, mi, fi);
  }

  /** A hook that is not installed. */
  lemma PassHook(ms0: seq<Module>, ms: seq<Module>, addrs: seq<nat>, recs: set<Rec>, mi: nat, fi: nat, h: Hook)
    requires ModulesDone(ms0, ms, mi, fi) && Matches(ms, addrs, recs, mi, fi)
    requires mi < |ms| && fi < |ms[mi].hooks| && h.disabled
    requires ms[mi].hooks[fi].disabled || HasEarlier(ms[mi].hooks, fi)
    ensures ModulesDone(ms0, SetHook(ms, mi, fi, h), mi, fi + 1)
    ensures Matches(SetHook(ms, mi, fi, h), addrs, recs, mi, fi + 1)
  {
    hide ModulesDone, Matches, HasEarlier, SetHook;
    StepModules(ms0, ms, mi, fi, h);
    MatchesSkip(ms, addrs, recs, mi, fi, h);
  }

  lemma RaiseTops(recs: set<Rec>, tops: seq<nat>, tops': seq<nat>)
    requires Below(recs, tops) && |tops'| == |tops| && forall b :: 0 <= b < |tops| ==> tops[b] <= tops'[b]
    ensures Below(recs, tops')
  {
  }

  lemma NothingDone(ms: seq<Module>, addrs: seq<nat>, tops: seq<nat>)
    ensures ModulesDone(ms, ms, 0, 0) && Matches(ms, addrs, {}, 0, 0) && Below({}, tops)
  {
  }

  lemma BlocksStay(ms0: seq<Module>, ms: seq<Module>, mi: nat, fi: nat)
    requires ModulesDone(ms0, ms, mi, fi)
    ensures |ms| == |ms0| && forall m :: 0 <= m < |ms| ==> ms[m].blk == ms0[m].blk
    ensures forall m :: 0 <= m < |ms| ==> |ms[m].hooks| == |ms0[m].hooks|
  {
    hide HasEarlier;
    forall m | 0 <= m < |ms| ensures |ms[m].hooks| == |ms0[m].hooks| {
      assert m < mi ==> HooksDone(ms0[m].hooks, ms[m].hooks, |ms0[m].hooks|);
    }
  }

  lemma LengthStays(m: Memory, before: Memory, addrs: seq<nat>, dis: Disassembler, page: nat, recs: set<Rec>)
    requires Installed(m, before, addrs, dis, page, recs)
    ensures |m| == |before|
  {
    hide Separate, Spread, AllHold, RestZero, SawOriginal;
    UntouchedLength(m, before, addrs, recs);
  }

  lemma OneMoreBelow(recs: set<Rec>, tops: seq<nat>, n: Rec)
    requires Below(recs, tops) && n.blk < |tops| && n.idx == tops[n.blk]
    ensures Below(recs + {n}, tops[n.blk := n.idx + 1])
  {
  }

  /** A slot is clear of the code it is written for. */
  lemma SlotClear(m: Memory, before: Memory, addrs: seq<nat>, dis: Disassembler, page: nat, recs: set<Rec>, n: Rec)
    requires Installed(m, before, addrs, dis, page, recs) && Fits(addrs, |before|, page, n)
    ensures |m| == |before|
    ensures var slot := SlotAt(addrs, n.blk, n.idx);
            && 6 <= slot && slot + SLOT_SIZE <= |m|
            && (slot + SLOT_SIZE <= n.org || n.org + MAX_LEN_TO_DISASSEMBLE <= slot)
  {
    hide AllHold, CodeKept, RestZero, SawOriginal, Spread;
    UntouchedLength(m, before, addrs, recs);
    SlotInBlock(addrs, |before|, n.blk, n.idx, n.org, MAX_LEN_TO_DISASSEMBLE);
  }
}
