/** From the map of the process to a running hook: what the placement of the blocks leaves is what
    installation needs, and every hook it serves works. */
module Whole {
  import opened Bytes
  import opened Isa
  import opened Prologue
  import opened Fixups
  import opened Slot
  import opened Records
  import opened Installer
  import P = Placement
  import H = Hooked

  /** The hooks of a module lie between its lowest and highest address, each with the code that is
      disassembled inside one segment. */
  ghost predicate Hooks(segs: seq<P.Seg>, mods: seq<P.Range>, ms: seq<Module>) {
    && |ms| == |mods|
    && forall m, i :: Enabled(ms, m, i) ==>
         var h := ms[m].hooks[i];
         && !P.Nothing(mods[m]) && mods[m].min <= h.org <= mods[m].max && h.org < TWO64 && h.newFunc < TWO64
         && exists s :: 0 <= s < |segs| && segs[s].lo <= h.org && h.org + MAX_LEN_TO_DISASSEMBLE <= segs[s].hi
  }

  /** The map, as read, and the modules, none with a block yet. */
  ghost predicate Mapped(segs: seq<P.Seg>, mods: seq<P.Range>, size: nat, page: nat) {
    && P.Gapped(segs) && P.PagedSegs(segs) && P.Short(segs) && P.OneSegment(segs, mods) && |mods| <= MAX_MODULE
    && (forall s :: 0 <= s < |segs| ==> page <= segs[s].lo && segs[s].hi + MIN_MEM_SIZE <= size)
    && forall j :: 0 <= j < |mods| ==> mods[j].blk == 0
  }

  /** The block numbers of the placement are those of the registered modules. */
  predicate SameBlocks(ms: seq<Module>, mods': seq<P.Range>) {
    |ms| == |mods'| && forall m :: 0 <= m < |ms| ==> ms[m].blk == mods'[m].blk
  }

  /** The block behind the segment of the first module, f, reaches every module. */
  ghost predicate OneBlockServes(segs: seq<P.Seg>, mods: seq<P.Range>, f: nat, first: nat) {
    && P.FirstModule(segs, mods, f, first)
    && forall i :: 0 <= i < |mods| && !P.Nothing(mods[i]) ==> P.InReach(segs[first].hi, mods[i])
  }

  /** Every module that has something to hook is sent to some block. */
  lemma SentSomewhere(segs: seq<P.Seg>, mods: seq<P.Range>, mods': seq<P.Range>, blocks: seq<nat>, made: seq<nat>,
                      m: nat)
    requires P.Allocated(segs, mods, mods', |mods|, blocks, made)
    requires m < |mods| && !P.Nothing(mods[m]) && mods[m].blk == 0
    ensures |mods'| == |mods| && mods'[m].blk < |blocks|
  {
    hide P.Made, P.InReach;
    if m in made {
      assert mods'[m] == mods[m];
    }
  }

  lemma BlockCount(segs: seq<P.Seg>, mods: seq<P.Range>, mods': seq<P.Range>, blocks: seq<nat>, made: seq<nat>)
    requires P.Allocated(segs, mods, mods', |mods|, blocks, made) && forall j :: 0 <= j < |mods| ==> mods[j].blk == 0
    ensures |mods'| == |mods| && |blocks| <= |mods|
    ensures forall m :: 0 <= m < |mods| ==> mods'[m].blk <= |blocks|
  {
    hide P.Made, P.InReach;
    forall m | 0 <= m < |mods| ensures mods'[m].blk <= |blocks| {
      if m in made || P.Nothing(mods[m]) {
        assert mods'[m] == mods[m];
      }
    }
  }

  /** The placement leaves what installation asks for. */
  lemma {:induction false} PlacedIsReady(segs: seq<P.Seg>, mods: seq<P.Range>, mods': seq<P.Range>, blocks: seq<nat>,
                                         made: seq<nat>, ms: seq<Module>, size: nat, page: nat)
    requires Mapped(segs, mods, size, page) && P.Allocated(segs, mods, mods', |mods|, blocks, made)
    requires Hooks(segs, mods, ms) && HookCount(ms, |ms|) <= MAX_PATCH && Spaced(ms)
    requires SameBlocks(ms, mods')
    requires exists m, i :: Enabled(ms, m, i)
    ensures Separate(blocks, size) && Registered(ms, blocks, size, page)
  {
    BlockCount(segs, mods, mods', blocks, made);
    hide P.Allocated, Mapped, Hooks, Separate, Hookable, HookCount, Spaced;
    forall m, i | Enabled(ms, m, i)
      ensures Separate(blocks, size) && ms[m].blk < |blocks|
      ensures Hookable(blocks, size, page, ms[m].hooks[i].org, ms[m].hooks[i].newFunc)
    {
      HookIsReady(segs, mods, mods', blocks, made, ms, size, page, m, i);
    }
    var m, i :| Enabled(ms, m, i);
    assert ms[m].blk < |blocks|;
  }

  lemma HookIsReady(segs: seq<P.Seg>, mods: seq<P.Range>, mods': seq<P.Range>, blocks: seq<nat>, made: seq<nat>,
                    ms: seq<Module>, size: nat, page: nat, m: nat, i: nat)
    requires Mapped(segs, mods, size, page) && P.Allocated(segs, mods, mods', |mods|, blocks, made)
    requires Hooks(segs, mods, ms) && SameBlocks(ms, mods') && Enabled(ms, m, i)
    ensures Separate(blocks, size) && ms[m].blk < |blocks|
    ensures Hookable(blocks, size, page, ms[m].hooks[i].org, ms[m].hooks[i].newFunc)
  {
    hide P.Allocated, P.Short, P.Gapped, P.OneSegment, P.PagedSegs, Separate, Clear;
    var org := ms[m].hooks[i].org;
    SentSomewhere(segs, mods, mods', blocks, made, m);
    var s :| 0 <= s < |segs| && segs[s].lo <= org && org + MAX_LEN_TO_DISASSEMBLE <= segs[s].hi;
    P.PlacedForHooks(segs, mods, mods', |mods|, blocks, made, size, s, org, MAX_LEN_TO_DISASSEMBLE);
  }

  /** The function of an installed hook lies in its module. */
  lemma HookInModule(segs: seq<P.Seg>, mods: seq<P.Range>, ms: seq<Module>, ms': seq<Module>, blocks: seq<nat>,
                     recs: set<Rec>, r: Rec)
    requires Hooks(segs, mods, ms) && ModulesDone(ms, ms', |ms'|, 0)
    requires Matches(ms', blocks, recs, |ms'|, 0) && r in recs
    ensures r.mod < |mods| && !P.Nothing(mods[r.mod]) && mods[r.mod].min <= r.org <= mods[r.mod].max
  {
    hide ModulesDone;
    assert Describes(ms', blocks, r);
    HooksStay(ms, ms', |ms'|, 0, r.mod, r.fun);
  }

  /** A hook of a module served by its block: both its jumps fit. */
  lemma ServedFits(mods: seq<P.Range>, mods': seq<P.Range>, blocks: seq<nat>, r: Rec, slot: nat)
    requires r.mod < |mods| == |mods'| && P.Served(mods, mods', blocks, r.mod) && r.blk == mods'[r.mod].blk
    requires mods[r.mod].min <= r.org <= mods[r.mod].max && r.idx < MAX_PATCH && slot == SlotAt(blocks, r.blk, r.idx)
    ensures Fits32(r.org - slot - 5) && Fits32(slot + BOUNCE_AT - r.org - 5)
  {
    P.DisplacementsFit(blocks[r.blk], mods[r.mod], r.org, slot);
  }

  /** From the map to the run. The block behind the segment of the first module reaches every
      module; blocks are placed, and hooks installed. Then every hook whose prologue is one the
      fix-ups allow, takes at most 15 bytes and holds no other entry, works: its entry runs the new
      function, its trampoline what the function was. */
  lemma HookWorks<S>(segs: seq<P.Seg>, mods: seq<P.Range>, mods': seq<P.Range>, blocks: seq<nat>, made: seq<nat>,
                     f: nat, first: nat, ms: seq<Module>, ms': seq<Module>, after: Memory, before: Memory,
                     dis: Disassembler, page: nat, recs: set<Rec>, r: Rec, slot: nat, m: Machine<S>, s: S)
    requires Mapped(segs, mods, |before|, page) && P.Allocated(segs, mods, mods', |mods|, blocks, made)
    requires OneBlockServes(segs, mods, f, first) && Hooks(segs, mods, ms) && SameBlocks(ms, mods')
    requires ModulesDone(ms, ms', |ms'|, 0) && Matches(ms', blocks, recs, |ms'|, 0) && AllKnown(before, ms, recs)
    requires Installed(after, before, blocks, dis, page, recs) && r in recs
    requires r.blk < |blocks| && slot == SlotAt(blocks, r.blk, r.idx)
    requires 0 < Saved(dis(r.w)) <= MAX_INSN_LEN && Alone(recs, r, Saved(dis(r.w)))
    requires var p, delta := Take(dis(r.w), 0), r.org - slot;
             && Lawful(m) && Straight(m, p) && Allowed(p, delta) && Reaches(p, delta)
             && H.CellKept(blocks, recs, p, r.org)
    ensures Steps(m, after, 2, Cpu(r.org, s)) == Some(Cpu(r.newFunc, s))
    ensures var p := Take(dis(r.w), 0);
            var end := RunAll(m, before, p, Cpu(r.org, s));
            && Steps(m, after, RunLength(p) + (if HasJump(p) then 0 else 1), Cpu(slot, s)) ==
               Steps(m, before, RunLength(p), Cpu(r.org, s)) == end
            && (!HasJump(p) ==> end.Some? && end.value.ip == r.org + |BitsAll(p)|)
  {
    hide Lawful, Straight, Installed, Allowed, Reaches, Take, BitsAll, Steps, RunAll, RunLength, HasJump, SlotAt,
      Saved, Alone, H.CellKept, Hooks, ModulesDone, Matches, AllKnown, P.Allocated, Mapped, OneBlockServes, SameBlocks;
    JumpsFit(segs, mods, mods', blocks, made, f, first, ms, ms', after, before, dis, page, recs, r, slot);
    H.InstalledHookRuns(m, after, before, blocks, dis, page, recs, r, slot, s);
  }

  lemma JumpsFit(segs: seq<P.Seg>, mods: seq<P.Range>, mods': seq<P.Range>, blocks: seq<nat>, made: seq<nat>,
                 f: nat, first: nat, ms: seq<Module>, ms': seq<Module>, after: Memory, before: Memory,
                 dis: Disassembler, page: nat, recs: set<Rec>, r: Rec, slot: nat)
    requires Mapped(segs, mods, |before|, page) && P.Allocated(segs, mods, mods', |mods|, blocks, made)
    requires OneBlockServes(segs, mods, f, first) && Hooks(segs, mods, ms) && SameBlocks(ms, mods')
    requires ModulesDone(ms, ms', |ms'|, 0) && Matches(ms', blocks, recs, |ms'|, 0) && AllKnown(before, ms, recs)
    requires Installed(after, before, blocks, dis, page, recs) && r in recs
    requires r.blk < |blocks| && slot == SlotAt(blocks, r.blk, r.idx)
    ensures Fits32(r.org - slot - 5) && Fits32(slot + BOUNCE_AT - r.org - 5)
  {
    HookInModule(segs, mods, ms, ms', blocks, recs, r);
    KnownBlock(before, ms, recs, r);
    SlotNumber(after, before, blocks, dis, page, recs, r);
    hide Installed, Hooks, ModulesDone, Matches, AllKnown, P.Allocated, P.InReach, P.FirstModule, SlotAt, P.Served;
    P.ReachedExactly(segs, mods, mods', blocks, made, f, first);
    ServedFits(mods, mods', blocks, r, slot);
  }

  lemma KnownBlock(before: Memory, ms: seq<Module>, recs: set<Rec>, r: Rec)
    requires AllKnown(before, ms, recs) && r in recs
    ensures r.mod < |ms| && r.blk == ms[r.mod].blk
  {
    hide MayRead, InSlot0;
    assert Known(before, ms, r);
  }

  lemma SlotNumber(after: Memory, before: Memory, blocks: seq<nat>, dis: Disassembler, page: nat, recs: set<Rec>,
                   r: Rec)
    requires Installed(after, before, blocks, dis, page, recs) && r in recs
    ensures r.idx < MAX_PATCH
  {
    hide RecHolds, CodeKept, RestZero, SawOriginal, AllOff, FrontsAre, Spread, Separate;
  }
}
