/** Code memory with several hooks in it: what is where, and what it was before. */
module Records {
  import opened Bytes
  import opened Isa
  import opened Prologue
  import opened Slot

  // bytes of a patch block
  const MIN_MEM_SIZE: nat := 4096

  // hooks a program may register
  const MAX_PATCH: nat := 48

  type Disassembler = seq<Byte> -> seq<Insn>

  /** An installed hook: function fun of module mod, in slot idx of block blk; w is the code
      that was at org when it was read. strays says that the fix-ups were looked for in front of
      the block. */
  datatype Rec = Rec(mod: nat, fun: nat, blk: nat, idx: nat, org: nat, newFunc: nat, w: seq<Byte>, strays: bool)

  /** Of a window filled by a rip-relative instruction, in the first slot of a block. In other slots
      the six bytes in front lie behind the record of the slot before. */
  predicate Strays(dis: Disassembler, idx: nat, w: seq<Byte>) { idx == 0 && FilledByRip(dis(w)) }

  function SlotAt(addrs: seq<nat>, blk: nat, idx: nat): nat
    requires blk < |addrs|
  {
    addrs[blk] + 64 * idx
  }

  /** The blocks are pages of memory, not the first, and do not overlap. */
  predicate Separate(addrs: seq<nat>, size: nat) {
    && (forall b :: 0 <= b < |addrs| ==>
          MIN_MEM_SIZE <= addrs[b] && addrs[b] + MIN_MEM_SIZE <= size && addrs[b] % MIN_MEM_SIZE == 0)
    && forall b, c :: 0 <= b < c < |addrs| ==>
         addrs[b] + MIN_MEM_SIZE <= addrs[c] || addrs[c] + MIN_MEM_SIZE <= addrs[b]
  }

  /** The n bytes at a lie in no block. */
  predicate Clear(addrs: seq<nat>, a: nat, n: nat) {
    forall b :: 0 <= b < |addrs| ==> a + n <= addrs[b] || addrs[b] + MIN_MEM_SIZE <= a
  }

  /** The n bytes at a are apart from the six in front of block b. */
  predicate OffFront(addrs: seq<nat>, b: nat, a: nat, n: nat)
    requires b < |addrs|
  {
    a + n + 6 <= addrs[b] || addrs[b] <= a
  }

  /** A function that can be hooked: outside the first page, outside the blocks. */
  predicate Hookable(addrs: seq<nat>, size: nat, page: nat, org: nat, newFunc: nat) {
    && page <= org < TWO64 && newFunc < TWO64 && org + MAX_LEN_TO_DISASSEMBLE <= size
    && Clear(addrs, org, MAX_LEN_TO_DISASSEMBLE)
  }

  predicate Fits(addrs: seq<nat>, size: nat, page: nat, r: Rec) {
    r.blk < |addrs| && r.idx < MAX_PATCH && Hookable(addrs, size, page, r.org, r.newFunc)
  }

  /** Two hooks share no slot, and their entry jumps no byte. */
  predicate Apart(r: Rec, s: Rec) {
    (r.blk != s.blk || r.idx != s.idx) && (r.org + JMP_LEN <= s.org || s.org + JMP_LEN <= r.org)
  }

  ghost predicate Spread(recs: set<Rec>) {
    forall r, s :: r in recs && s in recs && r != s ==> Apart(r, s)
  }

  /** If r strays, then not over the code of s. */
  predicate Off(addrs: seq<nat>, r: Rec, s: Rec)
    requires r.blk < |addrs|
  {
    r.strays ==> OffFront(addrs, r.blk, s.org, MAX_LEN_TO_DISASSEMBLE)
  }

  ghost predicate AllOff(addrs: seq<nat>, recs: set<Rec>) {
    forall r, s :: r in recs && s in recs ==> r.blk < |addrs| && Off(addrs, r, s)
  }

  ghost predicate InFront(addrs: seq<nat>, recs: set<Rec>, a: int) {
    exists r :: r in recs && r.strays && r.blk < |addrs| && addrs[r.blk] - 6 <= a < addrs[r.blk]
  }

  ghost predicate Unused(recs: set<Rec>, blk: nat, idx: nat) {
    forall r :: r in recs ==> r.blk != blk || r.idx != idx
  }

  predicate ZeroAt(m: Memory, a: nat, n: nat) {
    a + n <= |m| && forall k :: a <= k < a + n ==> m[k] == 0
  }

  ghost predicate InEntry(recs: set<Rec>, a: int) {
    exists r :: r in recs && r.org <= a < r.org + JMP_LEN
  }

  /** No other entry jump is in the first n bytes of the code that was read for r. */
  ghost predicate Alone(recs: set<Rec>, r: Rec, n: nat) {
    forall s :: s in recs && s != r ==> s.org + JMP_LEN <= r.org || r.org + n <= s.org
  }

  ghost predicate RecHolds(m: Memory, before: Memory, addrs: seq<nat>, dis: Disassembler, r: Rec)
    requires r.blk < |addrs| && r.org + MAX_LEN_TO_DISASSEMBLE <= |before|
  {
    var slot := SlotAt(addrs, r.blk, r.idx);
    && Holds(m, slot, r.org, r.newFunc, r.w, dis(r.w), r.org - slot)
    && |r.w| == MAX_LEN_TO_DISASSEMBLE && before[r.org..r.org + JMP_LEN] == r.w[..JMP_LEN]
    && r.strays == Strays(dis, r.idx, r.w)
  }

  ghost predicate AllHold(m: Memory, before: Memory, addrs: seq<nat>, dis: Disassembler, page: nat, recs: set<Rec>) {
    forall r :: r in recs ==> Fits(addrs, |before|, page, r) && RecHolds(m, before, addrs, dis, r)
  }

  /** Outside blocks and entries nothing has changed, but where a hook strayed. */
  ghost predicate CodeKept(m: Memory, before: Memory, addrs: seq<nat>, recs: set<Rec>) {
    |m| == |before| &&
    forall a :: 0 <= a < |m| && Clear(addrs, a, 1) && !InEntry(recs, a) && !InFront(addrs, recs, a) ==>
      m[a] == before[a]
  }

  /** What a hook that strayed has done to the six bytes in front of its block, if these lie in no
      other block. */
  ghost predicate FrontIs(m: Memory, before: Memory, addrs: seq<nat>, dis: Disassembler, r: Rec) {
    r.blk < |addrs| && 6 <= addrs[r.blk] <= |m| == |before| &&
    var b := addrs[r.blk];
    r.strays && Clear(addrs, b - 6, 6) ==> m[b - 6..b] == Fixups.Strayed(before[b - 6..b], dis(r.w), r.org - b)
  }

  ghost predicate FrontsAre(m: Memory, before: Memory, addrs: seq<nat>, dis: Disassembler, recs: set<Rec>) {
    forall r :: r in recs ==> FrontIs(m, before, addrs, dis, r)
  }

  /** The address field of a slot nobody uses is zero. */
  ghost predicate RestZero(m: Memory, addrs: seq<nat>, recs: set<Rec>) {
    forall b, i :: 0 <= b < |addrs| && 0 <= i < MAX_PATCH && Unused(recs, b, i) ==>
      ZeroAt(m, SlotAt(addrs, b, i) + ADDR_AT, 8)
  }

  /** What disassembly saw was the original code as far as no other hook is within reach. */
  ghost predicate SawOriginal(before: Memory, recs: set<Rec>) {
    forall r, n: nat :: r in recs && n <= MAX_LEN_TO_DISASSEMBLE && Alone(recs, r, n) ==>
      r.org + n <= |before| && n <= |r.w| && before[r.org..r.org + n] == r.w[..n]
  }

  ghost predicate Installed(m: Memory, before: Memory, addrs: seq<nat>, dis: Disassembler, page: nat, recs: set<Rec>) {
    && Separate(addrs, |before|) && Spread(recs)
    && AllHold(m, before, addrs, dis, page, recs) && CodeKept(m, before, addrs, recs)
    && RestZero(m, addrs, recs) && SawOriginal(before, recs)
    && AllOff(addrs, recs) && FrontsAre(m, before, addrs, dis, recs)
  }

  // ----- one more hook

  /** Slots are apart in memory, and apart from hookable code. */
  lemma SlotsApart(addrs: seq<nat>, size: nat, b: nat, i: nat, c: nat, j: nat)
    requires Separate(addrs, size) && b < |addrs| && c < |addrs| && i < MAX_PATCH && j < MAX_PATCH
    requires b != c || i != j
    ensures SlotAt(addrs, b, i) + 64 <= SlotAt(addrs, c, j) || SlotAt(addrs, c, j) + 64 <= SlotAt(addrs, b, i)
  {
  }

  lemma SlotInBlock(addrs: seq<nat>, size: nat, b: nat, i: nat, a: nat, n: nat)
    requires Separate(addrs, size) && b < |addrs| && i < MAX_PATCH && Clear(addrs, a, n)
    ensures SlotAt(addrs, b, i) + 64 <= size
    ensures a + n <= SlotAt(addrs, b, i) || SlotAt(addrs, b, i) + 64 <= a
  {
  }

  /** Where the writing of n starts. */
  function Start(addrs: seq<nat>, n: Rec): int
    requires n.blk < |addrs|
  {
    SlotAt(addrs, n.blk, n.idx) - (if n.strays || n.idx > 0 then 6 else 0)
  }

  /** The memory differs only where n is written. */
  ghost predicate Change(m: Memory, m': Memory, addrs: seq<nat>, n: Rec)
    requires n.blk < |addrs|
  {
    DiffersIn(m, m', Start(addrs, n), SlotAt(addrs, n.blk, n.idx) + SLOT_SIZE - Start(addrs, n), n.org)
  }

  /** What writing the slot of n changes. */
  lemma WrittenChange(m: Memory, m': Memory, addrs: seq<nat>, dis: Disassembler, n: Rec, slot: nat)
    requires n.blk < |addrs| && slot == SlotAt(addrs, n.blk, n.idx) && n.strays == Strays(dis, n.idx, n.w)
    requires DiffersIn(m, m', slot - 6, SLOT_SIZE + 6, n.org) && (!FilledByRip(dis(n.w)) ==> Frame(m, m', slot, n.org))
    ensures Change(m, m', addrs, n)
  {
    hide FilledByRip;
  }

  /** The record in another slot, up to its last used byte, is not where n is written. */
  lemma StartApart(addrs: seq<nat>, size: nat, b: nat, i: nat, n: Rec)
    requires Separate(addrs, size) && b < |addrs| && n.blk < |addrs| && i < MAX_PATCH && n.idx < MAX_PATCH
    requires b != n.blk || i != n.idx
    ensures SlotAt(addrs, b, i) + RECORD_END <= Start(addrs, n) ||
            SlotAt(addrs, n.blk, n.idx) + SLOT_SIZE <= SlotAt(addrs, b, i)
    ensures SlotAt(addrs, b, i) + SLOT_SIZE <= size
  {
  }

  /** Nor is code outside the blocks, unless n strays over it. */
  lemma StartClear(addrs: seq<nat>, size: nat, n: Rec, a: nat, k: nat)
    requires Separate(addrs, size) && n.blk < |addrs| && n.idx < MAX_PATCH && Clear(addrs, a, k) && k > 0
    requires n.strays ==> n.idx == 0 && OffFront(addrs, n.blk, a, k)
    ensures a + k <= Start(addrs, n) || SlotAt(addrs, n.blk, n.idx) + SLOT_SIZE <= a
    ensures SlotAt(addrs, n.blk, n.idx) + SLOT_SIZE <= size
  {
  }

  lemma ChangeSlice(m: Memory, m': Memory, lo: int, hi: nat, org: nat, a: nat, b: nat)
    requires lo <= hi && DiffersIn(m, m', lo, hi - lo, org) && a <= b <= |m|
    requires b <= lo || hi <= a
    requires b <= org || org + JMP_LEN <= a
    ensures |m| == |m'| && m'[a..b] == m[a..b]
  {
  }

  /** Writing another hook leaves a hook alone. */
  lemma HoldsKept(m: Memory, m': Memory, lo: int, hi: nat, org': nat,
                  slot: nat, org: nat, newFunc: nat, w: seq<Byte>, ds: seq<Insn>, delta: int)
    requires Holds(m, slot, org, newFunc, w, ds, delta) && lo <= hi && DiffersIn(m, m', lo, hi - lo, org')
    requires slot + RECORD_END <= lo || hi <= slot
    requires org + JMP_LEN <= org' || org' + JMP_LEN <= org
    requires slot + SLOT_SIZE <= org' || org' + JMP_LEN <= slot
    requires hi <= org || org + JMP_LEN <= lo
    ensures Holds(m', slot, org, newFunc, w, ds, delta)
  {
    hide Decodes, Saved, Fixups.Image, Fixups.Imaged, Encode, Bounce, EntryJump;
    ChangeSlice(m, m', lo, hi, org', slot + ADDR_AT, slot + RECORD_END);
    ChangeSlice(m, m', lo, hi, org', slot + ORG_CODE_AT, slot + ORG_CODE_AT + 5);
    ChangeSlice(m, m', lo, hi, org', org, org + 5);
    ChangeSlice(m, m', lo, hi, org', slot, slot + Saved(ds) + 5);
  }

  lemma OtherHolds(m: Memory, m': Memory, before: Memory, addrs: seq<nat>, dis: Disassembler, page: nat, r: Rec, n: Rec)
    requires Separate(addrs, |before|) && Fits(addrs, |before|, page, r) && RecHolds(m, before, addrs, dis, r)
    requires Fits(addrs, |before|, page, n) && Change(m, m', addrs, n) && Apart(r, n) && Off(addrs, n, r)
    requires n.strays ==> n.idx == 0
    ensures RecHolds(m', before, addrs, dis, r)
  {
    hide Holds, DiffersIn, Separate;
    var slot, ds := SlotAt(addrs, r.blk, r.idx), dis(r.w);
    var lo, hi := Start(addrs, n), SlotAt(addrs, n.blk, n.idx) + SLOT_SIZE;
    StartApart(addrs, |before|, r.blk, r.idx, n);
    SlotInBlock(addrs, |before|, r.blk, r.idx, n.org, MAX_LEN_TO_DISASSEMBLE);
    StartClear(addrs, |before|, n, r.org, MAX_LEN_TO_DISASSEMBLE);
    StartBelow(addrs, n);
    hide SlotAt, Start;
    HoldsKept(m, m', lo, hi, n.org, slot, r.org, r.newFunc, r.w, ds, r.org - slot);
  }

  lemma StartBelow(addrs: seq<nat>, n: Rec)
    requires n.blk < |addrs|
    ensures Start(addrs, n) <= SlotAt(addrs, n.blk, n.idx)
  {
  }

  lemma OthersHold(m: Memory, m': Memory, before: Memory, addrs: seq<nat>, dis: Disassembler, page: nat,
                   recs: set<Rec>, n: Rec)
    requires Separate(addrs, |before|) && AllHold(m, before, addrs, dis, page, recs) && Fits(addrs, |before|, page, n)
    requires Change(m, m', addrs, n) && (n.strays ==> n.idx == 0)
    requires forall r :: r in recs ==> Apart(r, n) && Off(addrs, n, r)
    ensures AllHold(m', before, addrs, dis, page, recs)
  {
    hide RecHolds, Change, Separate, SlotAt, Apart, Clear, Off;
    forall r | r in recs ensures Fits(addrs, |before|, page, r) && RecHolds(m', before, addrs, dis, r) {
      OtherHolds(m, m', before, addrs, dis, page, r, n);
    }
  }

  lemma CodeStillKept(m: Memory, m': Memory, before: Memory, addrs: seq<nat>, recs: set<Rec>, n: Rec)
    requires Separate(addrs, |before|) && CodeKept(m, before, addrs, recs) && n.blk < |addrs| && n.idx < MAX_PATCH
    requires Change(m, m', addrs, n) && (n.strays ==> n.idx == 0)
    ensures CodeKept(m', before, addrs, recs + {n})
  {
    forall a | 0 <= a < |m'| && Clear(addrs, a, 1) && !InEntry(recs + {n}, a) && !InFront(addrs, recs + {n}, a)
      ensures m'[a] == before[a]
    {
      assert n in recs + {n};
      assert !InEntry(recs, a) && !InFront(addrs, recs, a);
      StartClear(addrs, |before|, n, a, 1);
    }
  }

  lemma RestStillZero(m: Memory, m': Memory, size: nat, page: nat, addrs: seq<nat>, recs: set<Rec>, n: Rec)
    requires Separate(addrs, size) && |m| == size && RestZero(m, addrs, recs) && Fits(addrs, size, page, n)
    requires Change(m, m', addrs, n)
    ensures RestZero(m', addrs, recs + {n})
  {
    forall b, i | 0 <= b < |addrs| && 0 <= i < MAX_PATCH && Unused(recs + {n}, b, i)
      ensures ZeroAt(m', SlotAt(addrs, b, i) + ADDR_AT, 8)
    {
      assert n in recs + {n};
      assert Unused(recs, b, i);
      StartApart(addrs, size, b, i, n);
      SlotInBlock(addrs, size, b, i, n.org, MAX_LEN_TO_DISASSEMBLE);
      assert ZeroAt(m, SlotAt(addrs, b, i) + ADDR_AT, 8);
    }
  }

  /** Code outside blocks that no entry jump touches, and over which no hook strayed, is the
      original. */
  lemma UntouchedCode(m: Memory, before: Memory, addrs: seq<nat>, recs: set<Rec>, a: nat, n: nat)
    requires CodeKept(m, before, addrs, recs) && Clear(addrs, a, n) && a + n <= |m|
    requires forall r :: r in recs ==> r.org + JMP_LEN <= a || a + n <= r.org
    requires forall r :: r in recs && r.strays && r.blk < |addrs| ==> OffFront(addrs, r.blk, a, n)
    ensures m[a..a + n] == before[a..a + n]
  {
    forall k | a <= k < a + n ensures m[k] == before[k] {
      assert Clear(addrs, k, 1);
    }
  }

  lemma StillSawOriginal(m: Memory, before: Memory, addrs: seq<nat>, page: nat, recs: set<Rec>, n: Rec)
    requires CodeKept(m, before, addrs, recs) && Fits(addrs, |before|, page, n) && SawOriginal(before, recs)
    requires n.w == m[n.org..n.org + MAX_LEN_TO_DISASSEMBLE] && n !in recs
    requires forall r :: r in recs ==> r.blk < |addrs| && Off(addrs, r, n)
    ensures SawOriginal(before, recs + {n})
  {
    var recs' := recs + {n};
    forall r, k: nat | r in recs' && k <= MAX_LEN_TO_DISASSEMBLE && Alone(recs', r, k)
      ensures r.org + k <= |before| && k <= |r.w| && before[r.org..r.org + k] == r.w[..k]
    {
      if r == n {
        forall s | s in recs ensures s.org + JMP_LEN <= n.org || n.org + k <= s.org {
          assert s in recs' && s != n;
        }
        UntouchedCode(m, before, addrs, recs, n.org, k);
        SliceOfSlice(m, n.org, MAX_LEN_TO_DISASSEMBLE, 0, k);
      } else {
        assert Alone(recs, r, k);
      }
    }
  }

  lemma NewHolds(m: Memory, m': Memory, before: Memory, addrs: seq<nat>, dis: Disassembler, page: nat,
                 recs: set<Rec>, n: Rec)
    requires CodeKept(m, before, addrs, recs) && Fits(addrs, |before|, page, n)
    requires forall r :: r in recs ==> Apart(r, n) && r.blk < |addrs| && Off(addrs, r, n)
    requires n.w == m[n.org..n.org + MAX_LEN_TO_DISASSEMBLE] && n.strays == Strays(dis, n.idx, n.w)
    requires var slot := SlotAt(addrs, n.blk, n.idx);
             Holds(m', slot, n.org, n.newFunc, n.w, dis(n.w), n.org - slot)
    ensures RecHolds(m', before, addrs, dis, n)
  {
    hide Holds, CodeKept, Strays;
    assert Clear(addrs, n.org, JMP_LEN);
    assert |m| == |before| by { UntouchedLength(m, before, addrs, recs); }
    UntouchedCode(m, before, addrs, recs, n.org, JMP_LEN);
    SliceOfSlice(m, n.org, MAX_LEN_TO_DISASSEMBLE, 0, JMP_LEN);
  }

  lemma UntouchedLength(m: Memory, before: Memory, addrs: seq<nat>, recs: set<Rec>)
    requires CodeKept(m, before, addrs, recs)
    ensures |m| == |before|
  {
  }

  lemma OneMoreHolds(m: Memory, before: Memory, addrs: seq<nat>, dis: Disassembler, page: nat, recs: set<Rec>, n: Rec)
    requires AllHold(m, before, addrs, dis, page, recs)
    requires Fits(addrs, |before|, page, n) && RecHolds(m, before, addrs, dis, n)
    ensures AllHold(m, before, addrs, dis, page, recs + {n})
  {
    hide RecHolds, Fits;
  }

  lemma OneMoreSpread(recs: set<Rec>, n: Rec)
    requires Spread(recs) && forall r :: r in recs ==> Apart(r, n)
    ensures Spread(recs + {n}) && n !in recs
  {
    assert n in recs ==> Apart(n, n);
  }

  lemma OneMoreOff(addrs: seq<nat>, recs: set<Rec>, n: Rec)
    requires AllOff(addrs, recs) && n.blk < |addrs| && Off(addrs, n, n)
    requires forall r :: r in recs ==> r.blk < |addrs| && Off(addrs, r, n) && Off(addrs, n, r)
    ensures AllOff(addrs, recs + {n})
  {
    hide Off;
  }

  // ----- in front of the blocks

  /** The hook changes bytes in front of its block that belong to no other block. */
  predicate Harms(before: Memory, addrs: seq<nat>, dis: Disassembler, r: Rec) {
    && r.strays && r.blk < |addrs| && 6 <= addrs[r.blk] <= |before|
    && var b := addrs[r.blk];
    Clear(addrs, b - 6, 6) && (r.org - b) % TWO32 != 0 && Struck(before[b - 6..b], dis(r.w))
  }

  /** The front of a block lies in another block as a whole, or not at all. */
  lemma FrontWhole(addrs: seq<nat>, size: nat, b: nat, a: nat)
    requires Separate(addrs, size) && b < |addrs| && addrs[b] - 6 <= a < addrs[b] && Clear(addrs, a, 1)
    ensures Clear(addrs, addrs[b] - 6, 6)
  {
    forall c | 0 <= c < |addrs| ensures addrs[b] <= addrs[c] || addrs[c] + MIN_MEM_SIZE <= addrs[b] - 6 {
      if addrs[c] < addrs[b] {
        BlocksBelow(addrs[c], addrs[b]);
      }
    }
  }

  lemma BlocksBelow(c: nat, b: nat)
    requires c < b && c % MIN_MEM_SIZE == 0 && b % MIN_MEM_SIZE == 0
    ensures b == c + MIN_MEM_SIZE || b >= c + 2 * MIN_MEM_SIZE
  {
    assert c == MIN_MEM_SIZE * (c / MIN_MEM_SIZE) && b == MIN_MEM_SIZE * (b / MIN_MEM_SIZE);
  }

  /** The six bytes are the original ones exactly if the hook does no harm. */
  lemma FrontExactly(m: Memory, before: Memory, addrs: seq<nat>, dis: Disassembler, r: Rec, b: nat)
    requires r.strays && FrontIs(m, before, addrs, dis, r) && b == addrs[r.blk] && Clear(addrs, b - 6, 6)
    ensures m[b - 6..b] != before[b - 6..b] <==> Harms(before, addrs, dis, r)
  {
    hide Struck, Fixups.Strayed, Clear;
    var f, delta := before[b - 6..b], r.org - b;
    FrontValue(m, before, addrs, dis, r, b, f, delta);
    StrayExactly(f, dis(r.w), delta);
  }

  lemma FrontValue(m: Memory, before: Memory, addrs: seq<nat>, dis: Disassembler, r: Rec, b: nat, f: seq<Byte>,
                   delta: int)
    requires r.strays && FrontIs(m, before, addrs, dis, r) && b == addrs[r.blk] && Clear(addrs, b - 6, 6)
    requires f == before[b - 6..b] && delta == r.org - b
    ensures m[b - 6..b] == Fixups.Strayed(f, dis(r.w), delta)
    ensures Harms(before, addrs, dis, r) <==> Struck(f, dis(r.w)) && delta % TWO32 != 0
  {
    hide Struck, Fixups.Strayed, Clear;
  }

  /** The front of a block is clear of other fronts, and of what is written for another block. */
  lemma FrontsApart(addrs: seq<nat>, size: nat, b: nat, n: Rec)
    requires Separate(addrs, size) && b < |addrs| && n.blk < |addrs| && n.idx < MAX_PATCH
    requires Clear(addrs, addrs[b] - 6, 6)
    requires n.strays ==> n.idx == 0 && n.blk != b
    ensures addrs[b] <= Start(addrs, n) || SlotAt(addrs, n.blk, n.idx) + SLOT_SIZE <= addrs[b] - 6
  {
  }

  /** The front of another hook stays. */
  lemma FrontStillIs(m: Memory, m': Memory, before: Memory, addrs: seq<nat>, dis: Disassembler, r: Rec, n: Rec)
    requires Separate(addrs, |before|) && FrontIs(m, before, addrs, dis, r)
    requires n.blk < |addrs| && Change(m, m', addrs, n) && n.idx < MAX_PATCH && Off(addrs, r, n) && Apart(r, n)
    requires (r.strays ==> r.idx == 0) && (n.strays ==> n.idx == 0)
    ensures FrontIs(m', before, addrs, dis, r)
  {
    hide Fixups.Strayed;
    var b := addrs[r.blk];
    if r.strays && Clear(addrs, b - 6, 6) {
      FrontsApart(addrs, |before|, r.blk, n);
      StartBelow(addrs, n);
      ChangeSlice(m, m', Start(addrs, n), SlotAt(addrs, n.blk, n.idx) + SLOT_SIZE, n.org, b - 6, b);
    }
  }

  /** And that of the new one is the original, before it is written. */
  lemma NewFront(m: Memory, m': Memory, before: Memory, addrs: seq<nat>, dis: Disassembler, recs: set<Rec>, n: Rec)
    requires Separate(addrs, |before|) && CodeKept(m, before, addrs, recs) && n.blk < |addrs| && |m'| == |m|
    requires n.strays ==> n.idx == 0 && Front(m, m', addrs[n.blk], dis(n.w), n.org - addrs[n.blk])
    requires forall r :: r in recs ==> Apart(r, n) && Off(addrs, n, r) && (r.strays ==> r.idx == 0)
    ensures FrontIs(m', before, addrs, dis, n)
  {
    hide Fixups.Strayed, CodeKept;
    UntouchedLength(m, before, addrs, recs);
    var b := addrs[n.blk];
    if n.strays && Clear(addrs, b - 6, 6) {
      forall r | r in recs && r.strays && r.blk < |addrs| ensures OffFront(addrs, r.blk, b - 6, 6) {
        assert Apart(r, n);
      }
      UntouchedCode(m, before, addrs, recs, b - 6, 6);
    }
  }

  lemma FrontsStillAre(m: Memory, m': Memory, before: Memory, addrs: seq<nat>, dis: Disassembler, recs: set<Rec>,
                       n: Rec)
    requires Separate(addrs, |before|) && FrontsAre(m, before, addrs, dis, recs) && n.blk < |addrs| && n.idx < MAX_PATCH
    requires Change(m, m', addrs, n) && FrontIs(m', before, addrs, dis, n) && (n.strays ==> n.idx == 0)
    requires forall r :: r in recs ==> r.blk < |addrs| && Off(addrs, r, n) && Apart(r, n) && (r.strays ==> r.idx == 0)
    ensures FrontsAre(m', before, addrs, dis, recs + {n})
  {
    hide FrontIs, Separate, Change, Off, Apart;
    forall r | r in recs + {n} ensures FrontIs(m', before, addrs, dis, r) {
      if r != n {
        FrontStillIs(m, m', before, addrs, dis, r, n);
      }
    }
  }

  lemma StraysInFirst(m: Memory, before: Memory, addrs: seq<nat>, dis: Disassembler, page: nat, recs: set<Rec>)
    requires AllHold(m, before, addrs, dis, page, recs)
    ensures forall r :: r in recs ==> r.blk < |addrs| && (r.strays ==> r.idx == 0)
  {
    hide Holds;
  }

  /** One more hook in a free slot, its entry at least five bytes from the others, no hook
      straying over another's code. */
  lemma AddHook(m: Memory, m': Memory, before: Memory, addrs: seq<nat>, dis: Disassembler, page: nat,
                recs: set<Rec>, n: Rec)
    requires Installed(m, before, addrs, dis, page, recs) && Fits(addrs, |before|, page, n)
    requires forall r :: r in recs ==> Apart(r, n)
    requires Off(addrs, n, n) && forall r :: r in recs && r.blk < |addrs| ==> Off(addrs, r, n) && Off(addrs, n, r)
    requires n.w == m[n.org..n.org + MAX_LEN_TO_DISASSEMBLE] && n.strays == Strays(dis, n.idx, n.w)
    requires var slot := SlotAt(addrs, n.blk, n.idx);
             && Holds(m', slot, n.org, n.newFunc, n.w, dis(n.w), n.org - slot)
             && (n.strays ==> Front(m, m', addrs[n.blk], dis(n.w), n.org - addrs[n.blk]))
    requires Change(m, m', addrs, n)
    ensures Installed(m', before, addrs, dis, page, recs + {n}) && n !in recs
  {
    StraysInFirst(m, before, addrs, dis, page, recs);
    hide Holds, Change, CodeKept, RestZero, SawOriginal, Separate, AllHold, RecHolds, Spread, Fits, Apart, Off, AllOff,
      FrontIs, FrontsAre, Front;
    FitsInBlock(addrs, |before|, page, n);
    UntouchedLength(m, before, addrs, recs);
    OneMoreSpread(recs, n);
    OneMoreOff(addrs, recs, n);
    ChangeLength(m, m', addrs, n);
    OthersHold(m, m', before, addrs, dis, page, recs, n);
    NewHolds(m, m', before, addrs, dis, page, recs, n);
    OneMoreHolds(m', before, addrs, dis, page, recs, n);
    NewFront(m, m', before, addrs, dis, recs, n);
    FrontsStillAre(m, m', before, addrs, dis, recs, n);
    CodeStillKept(m, m', before, addrs, recs, n);
    RestStillZero(m, m', |before|, page, addrs, recs, n);
    StillSawOriginal(m, before, addrs, page, recs, n);
  }

  lemma ChangeLength(m: Memory, m': Memory, addrs: seq<nat>, n: Rec)
    requires n.blk < |addrs| && Change(m, m', addrs, n)
    ensures |m| == |m'|
  {
  }

  lemma FitsInBlock(addrs: seq<nat>, size: nat, page: nat, n: Rec)
    requires Fits(addrs, size, page, n)
    ensures n.blk < |addrs| && n.idx < MAX_PATCH && n.org + MAX_LEN_TO_DISASSEMBLE <= size
  {
  }

  /** Blocks fresh from mmap, no hook yet. */
  lemma NoHooksYet(m: Memory, addrs: seq<nat>, dis: Disassembler, page: nat)
    requires Separate(addrs, |m|) && forall b :: 0 <= b < |addrs| ==> ZeroAt(m, addrs[b], MIN_MEM_SIZE)
    ensures Installed(m, m, addrs, dis, page, {})
  {
    forall b, i | 0 <= b < |addrs| && 0 <= i < MAX_PATCH
      ensures ZeroAt(m, SlotAt(addrs, b, i) + ADDR_AT, 8)
    {
      assert ZeroAt(m, addrs[b], MIN_MEM_SIZE);
    }
  }
}
