/** The parameters shared between processes: their creation, their publication by set_io_param,
    and the copy every process keeps, one load or store of shared memory at a time. */
module Params {

  /** Position k is parameter k % 4 of server k / 4. */
  datatype Local = Local(stamp: nat, active: bool, vals: seq<int>)

  /** A thread of a process that reads the parameters. */
  datatype ReaderPc =
    | Waiting
    | Idle
    | CheckDisabled
    | LoadStamp
    | HaveStamp(c: nat)
    | Copy(k: nat)
    | HaveField(k: nat, v: int)

  datatype Thread = Thread(pc: ReaderPc, proc: nat)

  /** A run of set_io_param: new values for the flagged servers, or a switch. */
  datatype PubPc = Done | Write(k: nat) | Enable(on: bool) | ReadClock | PutStamp(c: nat)

  datatype Pub = Pub(pc: PubPc, flags: seq<bool>, vals: seq<int>)

  /** The process that creates the shared memory. */
  datatype MakerPc =
    | MClock
    | MStamp(c: nat)
    | MEnable
    | MClear(i: nat)
    | MWrite(k: nat)
    | MTag(i: nat)
    | MReady
    | MDone

  datatype Config = Config(vals: seq<int>, tags: seq<bool>)

  /** Shared memory and the time stamp counter. used are the stamps stored so far. */
  datatype Shm = Shm(
    ready: bool, stamp: nat, disabled: bool, tags: seq<bool>, vals: seq<int>, clock: nat, used: set<nat>)

  datatype St = St(
    shm: Shm, maker: MakerPc, config: Config, pubs: seq<Pub>, threads: seq<Thread>, locals: seq<Local>)

  datatype Act =
    | ReaderStep(t: nat)
    | Start(p: nat, flags: seq<bool>, vals: seq<int>)
    | Switch(p: nat, on: bool)
    | PubStep(p: nat)
    | MakerStep

  // ----- the steps

  /** The wait for the ready flag, the stamp test before every call, and Update_Parameters. */
  function ReaderMove(m: Shm, pc: ReaderPc, l: Local): (ReaderPc, Local)
    requires |m.vals| == |l.vals| == 4 * |m.tags|
  {
    match pc
    case Waiting => (if m.ready then CheckDisabled else Waiting, l)
    case Idle => (if l.stamp != m.stamp then CheckDisabled else Idle, l)
    case CheckDisabled => if m.disabled then (Idle, l.(active := false)) else (LoadStamp, l.(active := true))
    case LoadStamp => (HaveStamp(m.stamp), l)
    case HaveStamp(c) => (Copy(0), l.(stamp := c))
    case Copy(k) =>
      if k >= |m.vals| then (Idle, l) else if !m.tags[k / 4] then (Copy(k + 1), l) else (HaveField(k, m.vals[k]), l)
    case HaveField(k, v) => (Copy(k + 1), if k < |l.vals| then l.(vals := l.vals[k := v]) else l)
  }

  /** set_io_param: values, then the switch, then a fresh stamp, read and stored apart. */
  function PubMove(m: Shm, pub: Pub): (Shm, Pub)
    requires |m.vals| == |pub.vals| == 4 * |m.tags| && |pub.flags| == |m.tags|
  {
    match pub.pc
    case Done => (m, pub)
    case Write(k) =>
      if k >= |m.vals| then (m, pub.(pc := Enable(true)))
      else (if pub.flags[k / 4] then m.(vals := m.vals[k := pub.vals[k]]) else m, pub.(pc := Write(k + 1)))
    case Enable(on) => (m.(disabled := !on), pub.(pc := ReadClock))
    case ReadClock => (m.(clock := m.clock + 1), pub.(pc := PutStamp(m.clock)))
    case PutStamp(c) => (m.(stamp := c, used := m.used + {c}), pub.(pc := Done))
  }

  /** Publish_Parameters of the creator: the stamp first, then the values, then the ready flag. */
  function MakerMove(m: Shm, config: Config, pc: MakerPc): (Shm, MakerPc)
    requires |m.vals| == |config.vals| == 4 * |m.tags| && |config.tags| == |m.tags|
  {
    match pc
    case MClock => (m.(clock := m.clock + 1), MStamp(m.clock))
    case MStamp(c) => (m.(stamp := c, used := m.used + {c}), MEnable)
    case MEnable => (m.(disabled := false), MClear(0))
    case MClear(i) => if i >= |m.tags| then (m, MWrite(0)) else (m.(tags := m.tags[i := false]), MClear(i + 1))
    case MWrite(k) =>
      if k >= |m.vals| then (m, MReady)
      else (m.(vals := m.vals[k := config.vals[k]]), if k % 4 == 3 then MTag(k / 4) else MWrite(k + 1))
    case MTag(i) => if i >= |m.tags| then (m, MReady) else (m.(tags := m.tags[i := config.tags[i]]), MWrite(4 * i + 4))
    case MReady => (m.(ready := true), MDone)
    case MDone => (m, MDone)
  }

  predicate Sized(s: St) {
    && |s.shm.vals| == |s.config.vals| == 4 * |s.shm.tags| && |s.config.tags| == |s.shm.tags|
    && (forall p :: 0 <= p < |s.pubs| ==> |s.pubs[p].flags| == |s.shm.tags| && |s.pubs[p].vals| == |s.shm.vals|)
    && (forall t :: 0 <= t < |s.threads| ==> s.threads[t].proc < |s.locals|)
    && forall q :: 0 <= q < |s.locals| ==> |s.locals[q].vals| == |s.shm.vals|
  }

  function StepReader(s: St, t: nat): (s': St)
    requires Sized(s) && t < |s.threads|
    ensures Sized(s')
  {
    var q := s.threads[t].proc;
    var (pc, l) := ReaderMove(s.shm, s.threads[t].pc, s.locals[q]);
    s.(threads := s.threads[t := Thread(pc, q)], locals := s.locals[q := l])
  }

  function StepPub(s: St, p: nat): (s': St)
    requires Sized(s) && p < |s.pubs|
    ensures Sized(s')
  {
    var (m, pub) := PubMove(s.shm, s.pubs[p]);
    s.(shm := m, pubs := s.pubs[p := pub])
  }

  function StepMaker(s: St): (s': St)
    requires Sized(s)
    ensures Sized(s')
  {
    var (m, pc) := MakerMove(s.shm, s.config, s.maker);
    s.(shm := m, maker := pc)
  }

  function Begin(s: St, p: nat, pub: Pub): (s': St)
    requires Sized(s)
    ensures Sized(s')
  {
    if p < |s.pubs| && s.pubs[p].pc == Done && |pub.flags| == |s.shm.tags| && |pub.vals| == |s.shm.vals|
    then s.(pubs := s.pubs[p := pub]) else s
  }

  function Next(s: St, a: Act): (s': St)
    requires Sized(s)
    ensures Sized(s')
  {
    match a
    case ReaderStep(t) => if t < |s.threads| then StepReader(s, t) else s
    case Start(p, flags, vals) => Begin(s, p, Pub(Write(0), flags, vals))
    case Switch(p, on) => Begin(s, p, Pub(Enable(on), seq(|s.shm.tags|, _ => false), s.shm.vals))
    case PubStep(p) => if p < |s.pubs| then StepPub(s, p) else s
    case MakerStep => StepMaker(s)
  }

  function Run(s: St, acts: seq<Act>): (s': St)
    requires Sized(s)
    ensures Sized(s')
    decreases |acts|
  {
    if acts == [] then s else Run(Next(s, acts[0]), acts[1..])
  }

  /** Zeroed shared memory, and processes that have not attached. */
  predicate Init(s: St) {
    && Sized(s) && !s.shm.ready && s.shm.stamp == 0 && !s.shm.disabled && s.shm.clock > 0 && s.shm.used == {}
    && s.maker == MClock
    && (forall p :: 0 <= p < |s.pubs| ==> s.pubs[p].pc == Done)
    && (forall t :: 0 <= t < |s.threads| ==> s.threads[t].pc == Waiting)
    && forall q :: 0 <= q < |s.locals| ==> s.locals[q].stamp == 0
  }

  /** One thread in each process. */
  predicate SingleThreaded(s: St) {
    |s.threads| == |s.locals| && forall t :: 0 <= t < |s.threads| ==> s.threads[t].proc == t
  }

  // ----- the invariant

  /** The publisher has written position k and not yet stamped it. */
  predicate Wrote(pub: Pub, k: nat) {
    k / 4 < |pub.flags| && pub.flags[k / 4] &&
    match pub.pc
    case Done => false
    case Write(j) => k < j
    case _ => true
  }

  predicate Dirty(pubs: seq<Pub>, k: nat) {
    exists p :: 0 <= p < |pubs| && Wrote(pubs[p], k)
  }

  predicate ShmOk(m: Shm) {
    m.clock > 0 && (forall c :: c in m.used ==> 0 < c < m.clock) && (m.stamp == 0 || m.stamp in m.used)
  }

  /** A stamp about to be stored is new. */
  predicate NewStamp(m: Shm, c: nat) { 0 < c < m.clock && c !in m.used }

  predicate PubOk(m: Shm, pub: Pub) { pub.pc.PutStamp? ==> NewStamp(m, pub.pc.c) }

  predicate PubsOk(m: Shm, pubs: seq<Pub>) {
    && (forall p :: 0 <= p < |pubs| ==> PubOk(m, pubs[p]))
    && forall p, r :: 0 <= p < |pubs| && 0 <= r < |pubs| && p != r && pubs[p].pc.PutStamp? && pubs[r].pc.PutStamp? ==>
         pubs[p].pc.c != pubs[r].pc.c
  }

  predicate MakerOk(m: Shm, maker: MakerPc, pubs: seq<Pub>) {
    && (m.ready <==> maker.MDone?) && (m.stamp == 0 ==> maker.MClock? || maker.MStamp?)
    && (maker.MStamp? ==>
          && NewStamp(m, maker.c)
          && forall p :: 0 <= p < |pubs| && pubs[p].pc.PutStamp? ==> pubs[p].pc.c != maker.c)
  }

  /** The positions a thread's process has up to date: all, unless the thread is copying. */
  function Copied(pc: ReaderPc, n: nat): nat {
    match pc
    case Copy(k) => k
    case HaveField(k, _) => k
    case _ => n
  }

  /** A process whose stamp is the shared one has the shared values, except where a publisher is
      between writing and stamping. */
  predicate Current(m: Shm, pubs: seq<Pub>, pc: ReaderPc, l: Local) {
    l.stamp != 0 && l.stamp == m.stamp ==>
      && (forall k :: 0 <= k < |m.vals| && k < |l.vals| && k < Copied(pc, |m.vals|) && k / 4 < |m.tags| ==>
            m.tags[k / 4] ==> l.vals[k] == m.vals[k] || Dirty(pubs, k))
      && (pc.HaveField? && pc.k < |m.vals| ==> pc.v == m.vals[pc.k] || Dirty(pubs, pc.k))
  }

  predicate ThreadOk(m: Shm, pubs: seq<Pub>, pc: ReaderPc, l: Local) {
    && (l.stamp == 0 || l.stamp in m.used) && (pc.HaveStamp? ==> pc.c in m.used)
    && (!m.ready ==> pc == Waiting && l.stamp == 0) && Current(m, pubs, pc, l)
  }

  predicate Inv(s: St) {
    && Sized(s) && SingleThreaded(s) && ShmOk(s.shm) && PubsOk(s.shm, s.pubs) && MakerOk(s.shm, s.maker, s.pubs)
    && forall t :: 0 <= t < |s.threads| ==> ThreadOk(s.shm, s.pubs, s.threads[t].pc, s.locals[t])
  }

  lemma StillCurrent(m: Shm, m': Shm, pubs: seq<Pub>, pubs': seq<Pub>, pc: ReaderPc, l: Local)
    requires Current(m, pubs, pc, l) && m'.stamp == m.stamp && m'.tags == m.tags && |m'.vals| == |m.vals|
    requires forall k: nat :: k < |m.vals| && Dirty(pubs, k) ==> Dirty(pubs', k)
    requires forall k: nat :: k < |m.vals| && m'.vals[k] != m.vals[k] ==> Dirty(pubs', k)
    ensures Current(m', pubs', pc, l)
  {
    hide Dirty;
  }

  /** A publisher's step: it may only add to what is dirty, until it stores a new stamp. */
  lemma PubMoveThread(m: Shm, pubs: seq<Pub>, p: nat, pc: ReaderPc, l: Local)
    requires p < |pubs| && |m.vals| == |pubs[p].vals| == 4 * |m.tags| && |pubs[p].flags| == |m.tags|
    requires ThreadOk(m, pubs, pc, l) && PubOk(m, pubs[p])
    ensures var (m', pub') := PubMove(m, pubs[p]); ThreadOk(m', pubs[p := pub'], pc, l)
  {
    var (m', pub') := PubMove(m, pubs[p]);
    if !pubs[p].pc.PutStamp? {
      forall k: nat | k < |m.vals| && Dirty(pubs, k) ensures Dirty(pubs[p := pub'], k) {
        DirtyGrows(pubs, p, pub', k);
      }
      forall k: nat | k < |m.vals| && m'.vals[k] != m.vals[k] ensures Dirty(pubs[p := pub'], k) {
        assert Wrote(pubs[p := pub'][p], k);
      }
      hide Dirty, Current;
      StillCurrent(m, m', pubs, pubs[p := pub'], pc, l);
    }
  }

  lemma DirtyGrows(pubs: seq<Pub>, p: nat, pub: Pub, k: nat)
    requires p < |pubs| && Dirty(pubs, k) && (Wrote(pubs[p], k) ==> Wrote(pub, k))
    ensures Dirty(pubs[p := pub], k)
  {
    var r :| 0 <= r < |pubs| && Wrote(pubs[r], k);
    assert Wrote(pubs[p := pub][r], k);
  }

  lemma PubMoveStamps(m: Shm, maker: MakerPc, pubs: seq<Pub>, p: nat)
    requires p < |pubs| && |m.vals| == |pubs[p].vals| == 4 * |m.tags| && |pubs[p].flags| == |m.tags|
    requires ShmOk(m) && PubsOk(m, pubs) && MakerOk(m, maker, pubs)
    ensures var (m', pub') := PubMove(m, pubs[p]);
            ShmOk(m') && PubsOk(m', pubs[p := pub']) && MakerOk(m', maker, pubs[p := pub'])
  {
  }

  lemma MakerMoveStamps(m: Shm, config: Config, maker: MakerPc, pubs: seq<Pub>)
    requires |m.vals| == |config.vals| == 4 * |m.tags| && |config.tags| == |m.tags|
    requires ShmOk(m) && PubsOk(m, pubs) && MakerOk(m, maker, pubs)
    ensures var (m', maker') := MakerMove(m, config, maker);
            ShmOk(m') && PubsOk(m', pubs) && MakerOk(m', maker', pubs)
  {
  }

  /** A publisher begins only after its last run. */
  lemma BeginKeeps(s: St, p: nat, pub: Pub)
    requires Inv(s) && (pub.pc == Write(0) || (pub.pc.Enable? && forall i :: 0 <= i < |pub.flags| ==> !pub.flags[i]))
    ensures Inv(Begin(s, p, pub))
  {
    var s' := Begin(s, p, pub);
    forall t | 0 <= t < |s.threads| ensures ThreadOk(s'.shm, s'.pubs, s'.threads[t].pc, s'.locals[t]) {
      if s' != s {
        forall k: nat | k < |s.shm.vals| && Dirty(s.pubs, k) ensures Dirty(s'.pubs, k) {
          DirtyGrows(s.pubs, p, pub, k);
        }
        hide Dirty, Current;
        StillCurrent(s.shm, s'.shm, s.pubs, s'.pubs, s.threads[t].pc, s.locals[t]);
      }
    }
  }

  lemma ReaderMoveThread(m: Shm, pubs: seq<Pub>, pc: ReaderPc, l: Local)
    requires ShmOk(m) && |m.vals| == |l.vals| == 4 * |m.tags| && ThreadOk(m, pubs, pc, l) && (m.ready ==> m.stamp != 0)
    ensures var (pc', l') := ReaderMove(m, pc, l); ThreadOk(m, pubs, pc', l')
  {
    hide Dirty;
  }

  lemma MakerMoveThread(m: Shm, config: Config, maker: MakerPc, pubs: seq<Pub>, pc: ReaderPc, l: Local)
    requires |m.vals| == |config.vals| == 4 * |m.tags| && |config.tags| == |m.tags|
    requires ShmOk(m) && MakerOk(m, maker, pubs) && ThreadOk(m, pubs, pc, l)
    ensures var (m', maker') := MakerMove(m, config, maker); ThreadOk(m', pubs, pc, l)
  {
    hide Dirty;
  }

  lemma InvKept(s: St, a: Act)
    requires Inv(s)
    ensures Inv(Next(s, a))
  {
    hide Sized, ShmOk, PubsOk, MakerOk, ThreadOk, ReaderMove, PubMove, MakerMove;
    SizesOf(s);
    StampAtReady(s);
    match a
    case ReaderStep(t) =>
      if t < |s.threads| {
        ReaderMoveThread(s.shm, s.pubs, s.threads[t].pc, s.locals[t]);
      }
    case Start(p, flags, vals) => BeginKeeps(s, p, Pub(Write(0), flags, vals));
    case Switch(p, on) => BeginKeeps(s, p, Pub(Enable(on), seq(|s.shm.tags|, _ => false), s.shm.vals));
    case PubStep(p) =>
      if p < |s.pubs| {
        PubMoveStamps(s.shm, s.maker, s.pubs, p);
        PubOkAt(s.shm, s.pubs, p);
        var (m', pub') := PubMove(s.shm, s.pubs[p]);
        forall t | 0 <= t < |s.threads|
          ensures ThreadOk(m', s.pubs[p := pub'], s.threads[t].pc, s.locals[t])
        {
          PubMoveThread(s.shm, s.pubs, p, s.threads[t].pc, s.locals[t]);
        }
      }
    case MakerStep =>
      MakerMoveStamps(s.shm, s.config, s.maker, s.pubs);
      forall t | 0 <= t < |s.threads|
        ensures ThreadOk(MakerMove(s.shm, s.config, s.maker).0, s.pubs, s.threads[t].pc, s.locals[t])
      {
        MakerMoveThread(s.shm, s.config, s.maker, s.pubs, s.threads[t].pc, s.locals[t]);
      }
  }

  lemma SizesOf(s: St)
    requires Sized(s)
    ensures |s.shm.vals| == |s.config.vals| == 4 * |s.shm.tags| && |s.config.tags| == |s.shm.tags|
    ensures forall p :: 0 <= p < |s.pubs| ==> |s.pubs[p].flags| == |s.shm.tags| && |s.pubs[p].vals| == |s.shm.vals|
    ensures forall q :: 0 <= q < |s.locals| ==> |s.locals[q].vals| == |s.shm.vals|
  {
  }

  lemma StampAtReady(s: St)
    requires MakerOk(s.shm, s.maker, s.pubs)
    ensures s.shm.ready ==> s.shm.stamp != 0
  {
  }

  lemma PubOkAt(m: Shm, pubs: seq<Pub>, p: nat)
    requires PubsOk(m, pubs) && p < |pubs|
    ensures PubOk(m, pubs[p])
  {
  }

  lemma {:induction false} RunKeepsInv(s: St, acts: seq<Act>)
    requires Inv(s)
    ensures Inv(Run(s, acts))
    decreases |acts|
  {
    hide ShmOk, PubsOk, MakerOk, ThreadOk, SingleThreaded, Next;
    if acts != [] {
      InvKept(s, acts[0]);
      RunKeepsInv(Next(s, acts[0]), acts[1..]);
    }
  }

  lemma InitInv(s: St)
    requires Init(s) && SingleThreaded(s)
    ensures Inv(s)
  {
  }

  // ----- agreement

  /** No publisher is between its first write and its stamp. */
  predicate Quiet(s: St) {
    forall p :: 0 <= p < |s.pubs| ==>
      s.pubs[p].pc == Done || forall i :: 0 <= i < |s.pubs[p].flags| ==> !s.pubs[p].flags[i]
  }

  /** The process has the shared parameters of every tagged server. */
  predicate Agrees(s: St, q: nat)
    requires Sized(s) && q < |s.locals|
  {
    forall k :: 0 <= k < |s.shm.vals| && s.shm.tags[k / 4] ==> s.locals[q].vals[k] == s.shm.vals[k]
  }

  predicate Copying(pc: ReaderPc) { pc.Copy? || pc.HaveField? }

  /** Over all interleavings of creator, publishers and single-threaded readers: once the
      memory is ready, a process that is not copying and whose stamp is the shared one has the
      shared parameters, unless a publisher has written and not yet stamped. */
  lemma Agreement(s: St, acts: seq<Act>, t: nat)
    requires Init(s) && SingleThreaded(s) && t < |s.threads|
    ensures var r := Run(s, acts);
            && |r.threads| == |r.locals|
            && (t < |r.threads| && r.shm.ready && Quiet(r)
                && !Copying(r.threads[t].pc) && r.locals[t].stamp == r.shm.stamp ==>
                Agrees(r, t))
  {
    InitInv(s);
    RunKeepsInv(s, acts);
    var r := Run(s, acts);
    hide Run, Init, ShmOk, PubsOk;
    if t < |r.threads| && Quiet(r) {
      forall k: nat | k < |r.shm.vals| ensures !Dirty(r.pubs, k) {
      }
      assert ThreadOk(r.shm, r.pubs, r.threads[t].pc, r.locals[t]);
    }
  }

  // ----- the switch

  /** Some publisher has thrown the switch and not yet stored its stamp. */
  predicate Switching(pubs: seq<Pub>) {
    exists p :: 0 <= p < |pubs| && (pubs[p].pc == ReadClock || pubs[p].pc.PutStamp?)
  }

  /** The limits are on, or a publisher that threw the switch has its stamp still to store. */
  predicate On(m: Shm, pubs: seq<Pub>) { m.disabled ==> Switching(pubs) }

  /** The limits are off, no stamp is to come, and a reader that saw them on is about to load
      the stamp. */
  predicate Gap(s: St) {
    !On(s.shm, s.pubs) && exists t :: 0 <= t < |s.threads| && s.threads[t].pc == LoadStamp
  }

  /** A process that has, or has loaded, the current stamp is active, and the limits are on. */
  predicate SwitchOk(m: Shm, pubs: seq<Pub>, pc: ReaderPc, l: Local) {
    && (pc == Waiting ==> l.stamp == 0) && (pc == LoadStamp ==> l.active)
    && (pc.HaveStamp? && pc.c == m.stamp ==> l.active && On(m, pubs))
    && (l.stamp != 0 && l.stamp == m.stamp ==> pc != CheckDisabled && l.active && On(m, pubs))
  }

  predicate AllSwitchOk(s: St) {
    |s.threads| == |s.locals| &&
    forall t :: 0 <= t < |s.threads| ==> SwitchOk(s.shm, s.pubs, s.threads[t].pc, s.locals[t])
  }

  lemma ReaderKeepsSwitch(m: Shm, pubs: seq<Pub>, pc: ReaderPc, l: Local)
    requires |m.vals| == |l.vals| == 4 * |m.tags| && ThreadOk(m, pubs, pc, l) && SwitchOk(m, pubs, pc, l)
    requires pc == LoadStamp ==> On(m, pubs)
    ensures var (pc', l') := ReaderMove(m, pc, l); SwitchOk(m, pubs, pc', l')
  {
    hide Switching, Current;
  }

  lemma SwitchingStays(pubs: seq<Pub>, p: nat, pub: Pub)
    requires p < |pubs| && Switching(pubs)
    requires pubs[p].pc == ReadClock || pubs[p].pc.PutStamp? ==> pub.pc == ReadClock || pub.pc.PutStamp?
    ensures Switching(pubs[p := pub])
  {
    var r :| 0 <= r < |pubs| && (pubs[r].pc == ReadClock || pubs[r].pc.PutStamp?);
    assert pubs[p := pub][r] == if r == p then pub else pubs[r];
  }

  /** A publisher's step from anywhere but PutStamp keeps the promise of a stamp to come. */
  lemma PubMoveOn(m: Shm, pubs: seq<Pub>, p: nat)
    requires p < |pubs| && |m.vals| == |pubs[p].vals| == 4 * |m.tags| && |pubs[p].flags| == |m.tags|
    requires !pubs[p].pc.PutStamp?
    ensures var (m', pub') := PubMove(m, pubs[p]); m'.stamp == m.stamp && (On(m, pubs) ==> On(m', pubs[p := pub']))
  {
    var (m', pub') := PubMove(m, pubs[p]);
    if Switching(pubs) {
      SwitchingStays(pubs, p, pub');
    }
    if pubs[p].pc.Enable? {
      assert pubs[p := pub'][p].pc == ReadClock;
    }
  }

  lemma PubKeepsSwitch(m: Shm, pubs: seq<Pub>, p: nat, pc: ReaderPc, l: Local)
    requires p < |pubs| && |m.vals| == |pubs[p].vals| == 4 * |m.tags| && |pubs[p].flags| == |m.tags|
    requires ThreadOk(m, pubs, pc, l) && PubOk(m, pubs[p]) && SwitchOk(m, pubs, pc, l)
    ensures var (m', pub') := PubMove(m, pubs[p]); SwitchOk(m', pubs[p := pub'], pc, l)
  {
    hide Switching, Current, On;
    if !pubs[p].pc.PutStamp? {
      PubMoveOn(m, pubs, p);
    }
  }

  lemma BeginKeepsSwitch(s: St, p: nat, pub: Pub)
    requires Sized(s) && AllSwitchOk(s) && (pub.pc.Write? || pub.pc.Enable?)
    ensures AllSwitchOk(Begin(s, p, pub))
  {
    if Begin(s, p, pub) != s && Switching(s.pubs) {
      SwitchingStays(s.pubs, p, pub);
    }
    hide Switching;
  }

  lemma MakerKeepsSwitch(m: Shm, config: Config, maker: MakerPc, pubs: seq<Pub>, pc: ReaderPc, l: Local)
    requires |m.vals| == |config.vals| == 4 * |m.tags| && |config.tags| == |m.tags|
    requires MakerOk(m, maker, pubs) && ThreadOk(m, pubs, pc, l) && SwitchOk(m, pubs, pc, l)
    ensures var (m', maker') := MakerMove(m, config, maker); SwitchOk(m', pubs, pc, l)
  {
    hide Switching, Current;
  }

  /** Every step from a state that is no gap. */
  lemma SwitchKept(s: St, a: Act)
    requires Inv(s) && AllSwitchOk(s) && !Gap(s)
    ensures AllSwitchOk(Next(s, a))
  {
    hide Sized, ShmOk, PubsOk, MakerOk, ThreadOk, ReaderMove, PubMove, MakerMove, SwitchOk, On, PubOk;
    SizesOf(s);
    match a
    case ReaderStep(t) =>
      if t < |s.threads| {
        ReaderKeepsSwitch(s.shm, s.pubs, s.threads[t].pc, s.locals[t]);
      }
    case Start(p, flags, vals) => BeginKeepsSwitch(s, p, Pub(Write(0), flags, vals));
    case Switch(p, on) => BeginKeepsSwitch(s, p, Pub(Enable(on), seq(|s.shm.tags|, _ => false), s.shm.vals));
    case PubStep(p) =>
      if p < |s.pubs| {
        PubOkAt(s.shm, s.pubs, p);
        var (m', pub') := PubMove(s.shm, s.pubs[p]);
        forall t | 0 <= t < |s.threads|
          ensures SwitchOk(m', s.pubs[p := pub'], s.threads[t].pc, s.locals[t])
        {
          PubKeepsSwitch(s.shm, s.pubs, p, s.threads[t].pc, s.locals[t]);
        }
      }
    case MakerStep =>
      forall t | 0 <= t < |s.threads|
        ensures SwitchOk(MakerMove(s.shm, s.config, s.maker).0, s.pubs, s.threads[t].pc, s.locals[t])
      {
        MakerKeepsSwitch(s.shm, s.config, s.maker, s.pubs, s.threads[t].pc, s.locals[t]);
      }
  }

  /** A reader, idle with the current stamp in ready memory, disagrees with the switch, though
      no publisher has a stamp to store. */
  predicate Missed(s: St, t: nat) {
    && t < |s.threads| == |s.locals| && s.threads[t].pc == Idle && s.shm.ready && s.locals[t].stamp == s.shm.stamp
    && !Switching(s.pubs) && (s.locals[t].active <==> s.shm.disabled)
  }

  lemma OkNotMissed(s: St, t: nat)
    requires Inv(s) && AllSwitchOk(s)
    ensures !Missed(s, t)
  {
    StampAtReady(s);
    hide Sized, ShmOk, PubsOk, MakerOk, ThreadOk;
    assert t < |s.threads| ==> SwitchOk(s.shm, s.pubs, s.threads[t].pc, s.locals[t]);
  }

  lemma InvSized(s: St)
    requires Inv(s)
    ensures Sized(s)
  {
  }

  lemma {:induction false} MissedAfterGap(s: St, acts: seq<Act>, t: nat) returns (n: nat)
    requires Inv(s) && AllSwitchOk(s) && Missed(Run(s, acts), t)
    ensures n <= |acts| && Gap(Run(s, acts[..n]))
    decreases |acts|
  {
    hide Inv, AllSwitchOk, Missed, Gap, Next;
    if acts == [] {
      OkNotMissed(s, t);
    }
    if Gap(s) {
      n := 0;
      assert acts[..0] == [];
    } else {
      InvSized(s);
      InvKept(s, acts[0]);
      SwitchKept(s, acts[0]);
      n := MissedAfterGap(Next(s, acts[0]), acts[1..], t);
      assert acts[..n + 1][1..] == acts[1..][..n];
      n := n + 1;
    }
  }

  lemma InitSwitch(s: St)
    requires Init(s) && SingleThreaded(s)
    ensures AllSwitchOk(s)
  {
  }

  /** Over all interleavings of single-threaded readers: a process misses the switch only in a
      run that has come through a gap. */
  lemma SwitchAgrees(s: St, acts: seq<Act>, t: nat) returns (n: nat)
    requires Init(s) && SingleThreaded(s) && Missed(Run(s, acts), t)
    ensures n <= |acts| && Gap(Run(s, acts[..n]))
  {
    InitInv(s);
    InitSwitch(s);
    n := MissedAfterGap(s, acts, t);
  }

  /** No stamp is stored while a reader stands between its switch test and its stamp load. */
  predicate Patient(s: St, acts: seq<Act>)
    requires Sized(s)
    decreases |acts|
  {
    acts != [] ==>
      && (acts[0].PubStep? && acts[0].p < |s.pubs| && s.pubs[acts[0].p].pc.PutStamp? ==>
            forall t :: 0 <= t < |s.threads| ==> s.threads[t].pc != LoadStamp)
      && Patient(Next(s, acts[0]), acts[1..])
  }

  lemma ReaderMakesNoGap(s: St, t: nat)
    requires Sized(s) && t < |s.threads| && !Gap(s)
    ensures !Gap(StepReader(s, t))
  {
    hide Switching;
    var s' := StepReader(s, t);
    forall u | 0 <= u < |s'.threads| && s'.threads[u].pc == LoadStamp ensures On(s'.shm, s'.pubs) {
      assert u != t ==> s.threads[u].pc == LoadStamp;
    }
  }

  lemma BeginMakesNoGap(s: St, p: nat, pub: Pub)
    requires Sized(s) && (pub.pc.Write? || pub.pc.Enable?) && !Gap(s)
    ensures !Gap(Begin(s, p, pub))
  {
    if Begin(s, p, pub) != s && Switching(s.pubs) {
      SwitchingStays(s.pubs, p, pub);
    }
    hide Switching;
    var s' := Begin(s, p, pub);
    assert s'.threads == s.threads && s'.shm == s.shm;
  }

  lemma PubMakesNoGap(s: St, p: nat)
    requires Sized(s) && p < |s.pubs| && !Gap(s)
    requires s.pubs[p].pc.PutStamp? ==> forall t :: 0 <= t < |s.threads| ==> s.threads[t].pc != LoadStamp
    ensures !Gap(StepPub(s, p))
  {
    hide Switching, On;
    assert StepPub(s, p).threads == s.threads;
    if !s.pubs[p].pc.PutStamp? {
      PubMoveOn(s.shm, s.pubs, p);
    }
  }

  lemma MakerMakesNoGap(s: St)
    requires Sized(s) && !Gap(s)
    ensures !Gap(StepMaker(s))
  {
    hide Switching;
    var s' := StepMaker(s);
    assert s'.threads == s.threads && s'.pubs == s.pubs && (s'.shm.disabled ==> s.shm.disabled);
  }

  lemma {:induction false} PatientNoGap(s: St, acts: seq<Act>, n: nat)
    requires Sized(s) && !Gap(s) && Patient(s, acts) && n <= |acts|
    ensures !Gap(Run(s, acts[..n]))
    decreases |acts|
  {
    if n == 0 {
      assert acts[..0] == [];
    } else {
      hide Gap, Sized, StepReader, StepPub, StepMaker, Begin;
      match acts[0] {
        case ReaderStep(t) =>
          if t < |s.threads| {
            ReaderMakesNoGap(s, t);
          }
        case Start(p, flags, vals) => BeginMakesNoGap(s, p, Pub(Write(0), flags, vals));
        case Switch(p, on) => BeginMakesNoGap(s, p, Pub(Enable(on), seq(|s.shm.tags|, _ => false), s.shm.vals));
        case PubStep(p) =>
          if p < |s.pubs| {
            PubMakesNoGap(s, p);
          }
        case MakerStep => MakerMakesNoGap(s);
      }
      hide Next;
      PatientNoGap(Next(s, acts[0]), acts[1..], n - 1);
      assert acts[..n][1..] == acts[1..][..n - 1];
    }
  }

  /** So the switch is never missed in a run in which no stamp is stored while a reader stands
      between its switch test and its stamp load. */
  lemma PatientAgrees(s: St, acts: seq<Act>, t: nat)
    requires Init(s) && SingleThreaded(s) && Patient(s, acts)
    ensures !Missed(Run(s, acts), t)
  {
    hide Run, Gap, Patient, Missed;
    if Missed(Run(s, acts), t) {
      var n := SwitchAgrees(s, acts, t);
      InitNoGap(s);
      PatientNoGap(s, acts, n);
    }
  }

  lemma InitNoGap(s: St)
    requires Init(s)
    ensures !Gap(s)
  {
  }

  // ----- runs put together

  lemma {:induction false} RunAdd(s: St, a: seq<Act>, b: seq<Act>)
    requires Sized(s)
    ensures Run(s, a + b) == Run(Run(s, a), b)
    decreases |a|
  {
    hide Next;
    if a == [] {
      assert a + b == b;
    } else {
      assert (a + b)[0] == a[0] && (a + b)[1..] == a[1..] + b;
      RunAdd(Next(s, a[0]), a[1..], b);
    }
  }

  lemma RunOne(s: St, a: Act)
    requires Sized(s)
    ensures Run(s, [a]) == Next(s, a)
  {
    hide Next;
    assert Run(Next(s, a), [a][1..]) == Next(s, a);
  }

  /** The state with one thread and its process moved on. */
  function After(s: St, t: nat, pc: ReaderPc, l: Local): St
    requires Sized(s) && t < |s.threads|
  {
    var q := s.threads[t].proc;
    s.(threads := s.threads[t := Thread(pc, q)], locals := s.locals[q := l])
  }

  lemma Moved(s: St, t: nat, pc: ReaderPc, l: Local)
    requires Sized(s) && t < |s.threads| && |l.vals| == |s.shm.vals|
    ensures Sized(After(s, t, pc, l))
    ensures var (pc', l') := ReaderMove(s.shm, pc, l); Run(After(s, t, pc, l), [ReaderStep(t)]) == After(s, t, pc', l')
  {
    var r := After(s, t, pc, l);
    RunOne(r, ReaderStep(t));
    var (pc', l') := ReaderMove(s.shm, pc, l);
    assert r.threads[t := Thread(pc', s.threads[t].proc)] == s.threads[t := Thread(pc', s.threads[t].proc)];
    assert r.locals[s.threads[t].proc := l'] == s.locals[s.threads[t].proc := l'];
  }

  predicate OnlyReader(acts: seq<Act>, t: nat) { forall i :: 0 <= i < |acts| ==> acts[i] == ReaderStep(t) }

  /** Left to itself, a copying thread finishes: the positions to come are copied if their server is
      tagged, all others stay. */
  lemma {:induction false} CopyRuns(s: St, t: nat, k: nat, l: Local) returns (acts: seq<Act>, l': Local)
    requires Sized(s) && t < |s.threads| && |l.vals| == |s.shm.vals|
    ensures Sized(After(s, t, Copy(k), l)) && Run(After(s, t, Copy(k), l), acts) == After(s, t, Idle, l')
    ensures l'.stamp == l.stamp && l'.active == l.active && |l'.vals| == |l.vals|
    ensures forall j :: 0 <= j < |l.vals| ==>
              l'.vals[j] == if j >= k && s.shm.tags[j / 4] then s.shm.vals[j] else l.vals[j]
    ensures OnlyReader(acts, t)
    decreases |s.shm.vals| - k
  {
    hide After, Run;
    var step := [ReaderStep(t)];
    Moved(s, t, Copy(k), l);
    if k >= |s.shm.vals| {
      acts, l' := step, l;
    } else if !s.shm.tags[k / 4] {
      var rest;
      rest, l' := CopyRuns(s, t, k + 1, l);
      acts := step + rest;
      RunAdd(After(s, t, Copy(k), l), step, rest);
    } else {
      var v := s.shm.vals[k];
      var l1 := l.(vals := l.vals[k := v]);
      Moved(s, t, HaveField(k, v), l);
      var rest;
      rest, l' := CopyRuns(s, t, k + 1, l1);
      RunAdd(After(s, t, HaveField(k, v), l), step, rest);
      RunAdd(After(s, t, Copy(k), l), step, step + rest);
      acts := step + (step + rest);
    }
  }

  /** The state with shared memory and one publisher moved on. */
  function AfterPub(s: St, p: nat, m: Shm, pub: Pub): St
    requires Sized(s) && p < |s.pubs|
  {
    s.(shm := m, pubs := s.pubs[p := pub])
  }

  /** m has the sizes of s. */
  predicate SameSizes(s: St, m: Shm) { |m.vals| == |s.shm.vals| && |m.tags| == |s.shm.tags| }

  lemma PubMoved(s: St, p: nat, m: Shm, pub: Pub)
    requires Sized(s) && p < |s.pubs| && SameSizes(s, m) && |pub.flags| == |m.tags| && |pub.vals| == |m.vals|
    ensures Sized(AfterPub(s, p, m, pub))
    ensures var (m', pub') := PubMove(m, pub); Run(AfterPub(s, p, m, pub), [PubStep(p)]) == AfterPub(s, p, m', pub')
  {
    var r := AfterPub(s, p, m, pub);
    RunOne(r, PubStep(p));
    var (m', pub') := PubMove(m, pub);
    assert r.pubs[p := pub'] == s.pubs[p := pub'];
  }

  /** Switch, stamp read, stamp stored. */
  lemma PubEnds(s: St, p: nat, m: Shm, pub: Pub, on: bool) returns (acts: seq<Act>)
    requires Sized(s) && p < |s.pubs| && SameSizes(s, m) && |pub.flags| == |m.tags| && |pub.vals| == |m.vals|
    ensures Sized(AfterPub(s, p, m, pub.(pc := Enable(on))))
    ensures Run(AfterPub(s, p, m, pub.(pc := Enable(on))), acts) ==
            AfterPub(s, p, m.(disabled := !on, clock := m.clock + 1, stamp := m.clock, used := m.used + {m.clock}),
                     pub.(pc := Done))
  {
    hide AfterPub, Run;
    var step, m1 := [PubStep(p)], m.(disabled := !on);
    PubMoved(s, p, m, pub.(pc := Enable(on)));
    PubMoved(s, p, m1, pub.(pc := ReadClock));
    PubMoved(s, p, m1.(clock := m.clock + 1), pub.(pc := PutStamp(m.clock)));
    RunAdd(AfterPub(s, p, m1, pub.(pc := ReadClock)), step, step);
    RunAdd(AfterPub(s, p, m, pub.(pc := Enable(on))), step, step + step);
    acts := step + (step + step);
  }

  /** Left to itself, a publisher writes its values and stamps them. */
  lemma {:induction false} PubRuns(s: St, p: nat, m: Shm, pub: Pub, k: nat) returns (acts: seq<Act>, m': Shm)
    requires Sized(s) && p < |s.pubs| && SameSizes(s, m) && |pub.flags| == |m.tags| && |pub.vals| == |m.vals|
    ensures Sized(AfterPub(s, p, m, pub.(pc := Write(k))))
    ensures Run(AfterPub(s, p, m, pub.(pc := Write(k))), acts) == AfterPub(s, p, m', pub.(pc := Done))
    ensures m' == m.(disabled := false, clock := m.clock + 1, stamp := m.clock, used := m.used + {m.clock},
                     vals := m'.vals)
    ensures |m'.vals| == |m.vals|
    ensures forall j :: 0 <= j < |m.vals| ==>
              m'.vals[j] == if j >= k && pub.flags[j / 4] then pub.vals[j] else m.vals[j]
    decreases |m.vals| - k
  {
    hide AfterPub, Run;
    var step := [PubStep(p)];
    PubMoved(s, p, m, pub.(pc := Write(k)));
    var rest;
    if k >= |m.vals| {
      rest := PubEnds(s, p, m, pub, true);
      m' := m.(disabled := false, clock := m.clock + 1, stamp := m.clock, used := m.used + {m.clock});
    } else {
      var m1 := if pub.flags[k / 4] then m.(vals := m.vals[k := pub.vals[k]]) else m;
      rest, m' := PubRuns(s, p, m1, pub, k + 1);
    }
    RunAdd(AfterPub(s, p, m, pub.(pc := Write(k))), step, rest);
    acts := step + rest;
  }

  /** Shared memory is ready and on, nobody has attached, and no publisher is under way. */
  predicate Settled(s: St) {
    && Sized(s) && s.shm.ready && !s.shm.disabled && 0 < s.shm.stamp < s.shm.clock
    && s.shm.tags == s.config.tags
    && (forall p :: 0 <= p < |s.pubs| ==> s.pubs[p].pc == Done)
    && forall t :: 0 <= t < |s.threads| ==> s.threads[t].pc == Waiting
  }

  /** How much the creator has left to do. */
  function Left(pc: MakerPc, n: nat): (nat, nat) {
    match pc
    case MClock => (6, 0)
    case MStamp(_) => (5, 0)
    case MEnable => (4, 0)
    case MClear(i) => (3, if i < n then n - i else 0)
    case MWrite(k) => (2, if k < 4 * n then 2 * (4 * n - k) + 1 else 0)
    case MTag(i) => (2, if i < n then 2 * (4 * n - 4 * i - 4) + 2 else 0)
    case MReady => (1, 0)
    case MDone => (0, 0)
  }

  /** The first i servers have their tag, the others none; the first k positions have their value. */
  predicate Made(m: Shm, config: Config, i: nat, k: nat)
    requires |config.tags| == |m.tags| && |config.vals| == |m.vals|
  {
    && (forall j :: 0 <= j < |m.tags| ==> m.tags[j] == (j < i && config.tags[j]))
    && forall j :: 0 <= j < |m.vals| && j < k ==> m.vals[j] == config.vals[j]
  }

  /** What the creator has done so far. */
  predicate Making(m: Shm, config: Config, pc: MakerPc) {
    && |m.vals| == |config.vals| == 4 * |m.tags| && |config.tags| == |m.tags| && (m.ready <==> pc.MDone?)
    && !m.disabled
    && (if pc.MClock? then m.clock > 0 else if pc.MStamp? then 0 < pc.c < m.clock else 0 < m.stamp < m.clock)
    && (pc.MClear? ==> pc.i <= |m.tags| && forall i :: 0 <= i < pc.i ==> !m.tags[i])
    && (pc.MWrite? ==> pc.k <= |m.vals| && Made(m, config, pc.k / 4, pc.k))
    && (pc.MTag? ==> pc.i < |m.tags| && Made(m, config, pc.i, 4 * pc.i + 4))
    && (pc.MReady? || pc.MDone? ==> m.tags == config.tags && m.vals == config.vals)
  }

  lemma MakerMoves(m: Shm, config: Config, pc: MakerPc)
    requires Making(m, config, pc) && !pc.MDone?
    ensures var (m', pc') := MakerMove(m, config, pc);
            && Making(m', config, pc') && |m'.tags| == |m.tags|
            && (Left(pc', |m.tags|).0 < Left(pc, |m.tags|).0
                || (Left(pc', |m.tags|).0 == Left(pc, |m.tags|).0 && Left(pc', |m.tags|).1 < Left(pc, |m.tags|).1))
  {
  }

  /** Left to itself, the creator finishes. */
  lemma {:induction false} MakerRuns(s: St) returns (acts: seq<Act>)
    requires Sized(s) && Making(s.shm, s.config, s.maker)
    ensures var r := Run(s, acts);
            && r.shm.ready && !r.shm.disabled && 0 < r.shm.stamp < r.shm.clock
            && r.shm.tags == s.config.tags && r.shm.vals == s.config.vals
            && r.config == s.config && r.pubs == s.pubs && r.threads == s.threads && r.locals == s.locals
    decreases Left(s.maker, |s.shm.tags|).0, Left(s.maker, |s.shm.tags|).1
  {
    if s.maker.MDone? {
      acts := [];
    } else {
      MakerMoves(s.shm, s.config, s.maker);
      hide MakerMove, Making, Left;
      var rest := MakerRuns(Next(s, MakerStep));
      acts := [MakerStep] + rest;
      RunOne(s, MakerStep);
      RunAdd(s, [MakerStep], rest);
    }
  }

  lemma Settles(s: St) returns (acts: seq<Act>)
    requires Init(s)
    ensures var r := Run(s, acts);
            && Settled(r) && r.shm.vals == s.config.vals
            && r.config == s.config && r.pubs == s.pubs && r.threads == s.threads && r.locals == s.locals
  {
    acts := MakerRuns(s);
  }

  lemma ThenSame(s: St, t: nat)
    requires Sized(s) && t < |s.threads|
    ensures s == After(s, t, s.threads[t].pc, s.locals[s.threads[t].proc])
  {
  }

  /** A thread that sees the switch on loads the stamp. */
  lemma LoadsStamp(s: St, t: nat, l: Local) returns (acts: seq<Act>, l': Local)
    requires Sized(s) && t < |s.threads| && |l.vals| == |s.shm.vals| && !s.shm.disabled
    ensures Sized(After(s, t, CheckDisabled, l))
    ensures Run(After(s, t, CheckDisabled, l), acts) == After(s, t, HaveStamp(s.shm.stamp), l')
    ensures l' == l.(active := true) && OnlyReader(acts, t)
  {
    hide After, Run;
    var step := [ReaderStep(t)];
    l' := l.(active := true);
    Moved(s, t, CheckDisabled, l);
    Moved(s, t, LoadStamp, l');
    RunAdd(After(s, t, CheckDisabled, l), step, step);
    acts := step + step;
  }

  /** From a loaded stamp to the end of the copy. */
  lemma Finishes(s: St, t: nat, c: nat, l: Local) returns (acts: seq<Act>, l': Local)
    requires Sized(s) && t < |s.threads| && |l.vals| == |s.shm.vals|
    ensures Sized(After(s, t, HaveStamp(c), l)) && Run(After(s, t, HaveStamp(c), l), acts) == After(s, t, Idle, l')
    ensures l'.stamp == c && l'.active == l.active && |l'.vals| == |l.vals|
    ensures forall j :: 0 <= j < |l.vals| ==> l'.vals[j] == if s.shm.tags[j / 4] then s.shm.vals[j] else l.vals[j]
    ensures OnlyReader(acts, t)
  {
    hide After, Run;
    Moved(s, t, HaveStamp(c), l);
    var rest;
    rest, l' := CopyRuns(s, t, 0, l.(stamp := c));
    RunAdd(After(s, t, HaveStamp(c), l), [ReaderStep(t)], rest);
    acts := [ReaderStep(t)] + rest;
  }

  /** An idle thread stays where it is exactly while its process has the shared stamp. */
  lemma IdleExactly(s: St, t: nat)
    requires Sized(s) && t < |s.threads| && s.threads[t].pc == Idle
    ensures Next(s, ReaderStep(t)) == s <==> s.locals[s.threads[t].proc].stamp == s.shm.stamp
  {
    var q := s.threads[t].proc;
    assert Next(s, ReaderStep(t)).threads[t].pc == Idle <==> s.locals[q].stamp == s.shm.stamp;
  }

  /** The thread is at its switch test next: idle with another stamp than the shared one, or waiting
      though the memory is ready. */
  predicate Due(s: St, t: nat)
    requires Sized(s) && t < |s.threads|
  {
    || (s.threads[t].pc == Waiting && s.shm.ready)
    || (s.threads[t].pc == Idle && s.locals[s.threads[t].proc].stamp != s.shm.stamp)
  }

  /** From the switch test to the end of the copy, with the limits on. */
  lemma UpdatesFully(s: St, t: nat, l: Local) returns (acts: seq<Act>, l': Local)
    requires Sized(s) && t < |s.threads| && |l.vals| == |s.shm.vals| && !s.shm.disabled
    ensures Sized(After(s, t, CheckDisabled, l)) && Run(After(s, t, CheckDisabled, l), acts) == After(s, t, Idle, l')
    ensures OnlyReader(acts, t) && Updated(s.shm, l, l')
  {
    hide After, Run, Updated;
    var a, l1 := LoadsStamp(s, t, l);
    var b;
    b, l' := Finishes(s, t, s.shm.stamp, l1);
    RunAdd(After(s, t, CheckDisabled, l), a, b);
    acts := a + b;
    IsUpdated(s.shm, l, l');
  }

  lemma DueMoves(s: St, t: nat)
    requires Sized(s) && t < |s.threads| && Due(s, t)
    ensures Run(s, [ReaderStep(t)]) == After(s, t, CheckDisabled, s.locals[s.threads[t].proc])
  {
    var l := s.locals[s.threads[t].proc];
    ThenSame(s, t);
    hide After, Run;
    Moved(s, t, s.threads[t].pc, l);
  }

  /** Left to itself, an idle thread whose process has another stamp than the shared one, or a waiting
      one once the memory is ready, updates the process: with the limits on, it becomes active and has
      the shared stamp and the shared parameters of every tagged server; with the limits off, it
      becomes inactive. */
  lemma CatchesUp(s: St, t: nat) returns (acts: seq<Act>, l': Local)
    requires Sized(s) && t < |s.threads| && Due(s, t)
    ensures OnlyReader(acts, t) && Run(s, acts) == After(s, t, Idle, l')
    ensures s.shm.disabled ==> l' == s.locals[s.threads[t].proc].(active := false)
    ensures !s.shm.disabled ==> Updated(s.shm, s.locals[s.threads[t].proc], l')
  {
    var l, step := s.locals[s.threads[t].proc], [ReaderStep(t)];
    DueMoves(s, t);
    hide After, Run, Updated, Due;
    var rest;
    if s.shm.disabled {
      Moved(s, t, CheckDisabled, l);
      rest, l' := step, l.(active := false);
    } else {
      rest, l' := UpdatesFully(s, t, l);
    }
    RunAdd(s, step, rest);
    acts := step + rest;
  }

  /** The process is active, and has the shared stamp and the shared parameters of tagged servers;
      others it keeps. */
  predicate Updated(m: Shm, l: Local, l': Local) {
    && l'.active && l'.stamp == m.stamp && |l'.vals| == |l.vals| == |m.vals| == 4 * |m.tags|
    && forall j :: 0 <= j < |m.vals| ==> l'.vals[j] == if m.tags[j / 4] then m.vals[j] else l.vals[j]
  }

  lemma IsUpdated(m: Shm, l: Local, l': Local)
    requires l'.active && l'.stamp == m.stamp && |l'.vals| == |l.vals| == |m.vals| == 4 * |m.tags|
    requires forall j :: 0 <= j < |l.vals| ==> l'.vals[j] == if m.tags[j / 4] then m.vals[j] else l.vals[j]
    ensures Updated(m, l, l')
  {
  }

  /** The thread has seen the switch on and loads the stamp next. */
  lemma SeesOn(s: St, t: nat) returns (acts: seq<Act>, l': Local)
    requires Sized(s) && t < |s.threads| && s.threads[t].pc == Waiting && s.shm.ready && !s.shm.disabled
    ensures Run(s, acts) == After(s, t, LoadStamp, l') && l'.active && |l'.vals| == |s.shm.vals|
  {
    var l, step := s.locals[s.threads[t].proc], [ReaderStep(t)];
    ThenSame(s, t);
    hide After, Run;
    Moved(s, t, Waiting, l);
    Moved(s, t, CheckDisabled, l);
    RunAdd(s, step, step);
    acts, l' := step + step, l.(active := true);
  }

  lemma SwitchedOff(s: St, p: nat) returns (acts: seq<Act>, m: Shm, pub: Pub)
    requires Sized(s) && p < |s.pubs| && s.pubs[p].pc == Done
    ensures Run(s, acts) == AfterPub(s, p, m, pub) && pub.pc == Done && SameSizes(s, m)
    ensures m.disabled && m.stamp == s.shm.clock && m.ready == s.shm.ready && m.tags == s.shm.tags
  {
    var on := Pub(Enable(false), seq(|s.shm.tags|, _ => false), s.shm.vals);
    RunOne(s, Switch(p, false));
    assert Next(s, Switch(p, false)) == AfterPub(s, p, s.shm, on);
    hide AfterPub, Run;
    var rest := PubEnds(s, p, s.shm, on, false);
    RunAdd(s, [Switch(p, false)], rest);
    acts := [Switch(p, false)] + rest;
    m := s.shm.(disabled := true, clock := s.shm.clock + 1, stamp := s.shm.clock, used := s.shm.used + {s.shm.clock});
    pub := on.(pc := Done);
  }

  lemma ActiveInGap(s: St, t: nat)
    requires AllSwitchOk(s) && t < |s.threads| && s.threads[t].pc == LoadStamp
    ensures t < |s.locals| && s.locals[t].active
  {
    assert SwitchOk(s.shm, s.pubs, s.threads[t].pc, s.locals[t]);
  }

  /** And every gap does harm: the reader in it, left alone, ends idle with the current stamp and
      active, while the limits are off. */
  lemma GapMisses(s: St) returns (acts: seq<Act>, t: nat)
    requires Inv(s) && AllSwitchOk(s) && Gap(s)
    ensures Missed(Run(s, acts), t)
  {
    t :| t < |s.threads| && s.threads[t].pc == LoadStamp;
    ActiveInGap(s, t);
    ReadyIfPast(s, t);
    var l := s.locals[t];
    ThenSame(s, t);
    hide Run, Inv, AllSwitchOk, Switching;
    Moved(s, t, LoadStamp, l);
    var rest, l' := Finishes(s, t, s.shm.stamp, l);
    RunAdd(s, [ReaderStep(t)], rest);
    acts := [ReaderStep(t)] + rest;
  }

  lemma ReadyIfPast(s: St, t: nat)
    requires Inv(s) && t < |s.threads| && s.threads[t].pc == LoadStamp
    ensures Sized(s) && |s.threads| == |s.locals| && s.threads[t].proc == t && s.shm.ready
  {
    assert ThreadOk(s.shm, s.pubs, s.threads[t].pc, s.locals[t]);
  }

  /** Going on from the first gap of any run, a process misses the switch. */
  lemma GapAlwaysHarms(s: St, acts: seq<Act>) returns (more: seq<Act>, t: nat)
    requires Init(s) && SingleThreaded(s) && Gap(Run(s, acts))
    ensures Missed(Run(s, more), t)
  {
    InitInv(s);
    InitSwitch(s);
    var n := FirstGap(s, acts);
    hide Run, Gap, Missed, Init, SingleThreaded, AllSwitchOk, Inv;
    var rest;
    rest, t := GapMisses(Run(s, acts[..n]));
    RunAdd(s, acts[..n], rest);
    more := acts[..n] + rest;
  }

  lemma {:induction false} FirstGap(s: St, acts: seq<Act>) returns (n: nat)
    requires Inv(s) && AllSwitchOk(s) && Gap(Run(s, acts))
    ensures n <= |acts| && Gap(Run(s, acts[..n]))
    ensures Inv(Run(s, acts[..n])) && AllSwitchOk(Run(s, acts[..n]))
    decreases |acts|
  {
    hide Inv, AllSwitchOk, Gap, Next;
    if Gap(s) {
      n := 0;
      assert acts[..0] == [];
    } else {
      InvSized(s);
      InvKept(s, acts[0]);
      SwitchKept(s, acts[0]);
      n := FirstGap(Next(s, acts[0]), acts[1..]);
      assert acts[..n + 1][1..] == acts[1..][..n];
      n := n + 1;
    }
  }

  /** From any settled state with a publisher, a process can come to miss the switch: it sees the
      limits on, the publisher switches them off and stores its stamp, and only then does the
      process load the stamp. */
  lemma SwitchMissed(s: St, t: nat, p: nat) returns (acts: seq<Act>)
    requires Settled(s) && t < |s.threads| && p < |s.pubs|
    ensures var r := Run(s, acts);
            && t < |r.threads| && r.threads[t].pc == Idle && Quiet(r) && r.shm.ready && r.shm.disabled
            && var l := r.locals[r.threads[t].proc]; l.stamp == r.shm.stamp && l.active
  {
    hide Run;
    var a, l1 := SeesOn(s, t);
    var s1 := Run(s, a);
    var b, m, pub := SwitchedOff(s1, p);
    var s2 := Run(s1, b);
    ThenSame(s2, t);
    Moved(s2, t, LoadStamp, l1);
    var c, l2 := Finishes(s2, t, m.stamp, l1);
    RunAdd(s2, [ReaderStep(t)], c);
    RunAdd(s1, b, [ReaderStep(t)] + c);
    RunAdd(s, a, b + ([ReaderStep(t)] + c));
    acts := a + (b + ([ReaderStep(t)] + c));
  }

  /** A publisher started in any state and left to itself: the flagged values are in place, the limits
      are on, and the stamp is fresh. */
  lemma Publishes(s: St, p: nat, flags: seq<bool>, vals: seq<int>) returns (acts: seq<Act>, m: Shm)
    requires Sized(s) && p < |s.pubs| && s.pubs[p].pc == Done
    requires |flags| == |s.shm.tags| && |vals| == |s.shm.vals|
    ensures Run(s, acts) == AfterPub(s, p, m, Pub(Done, flags, vals))
    ensures m == s.shm.(disabled := false, clock := s.shm.clock + 1, stamp := s.shm.clock,
                        used := s.shm.used + {s.shm.clock}, vals := m.vals)
    ensures |m.vals| == |s.shm.vals|
    ensures forall j :: 0 <= j < |m.vals| ==> m.vals[j] == if flags[j / 4] then vals[j] else s.shm.vals[j]
  {
    var on := Pub(Write(0), flags, vals);
    RunOne(s, Start(p, flags, vals));
    assert Next(s, Start(p, flags, vals)) == AfterPub(s, p, s.shm, on);
    hide AfterPub, Run;
    var rest;
    rest, m := PubRuns(s, p, s.shm, on, 0);
    RunAdd(s, [Start(p, flags, vals)], rest);
    acts := [Start(p, flags, vals)] + rest;
  }

  /** New limits arrive: from every reachable state in which thread t is idle and publisher p is done,
      publishing and then a call of t give its process the new parameters of the flagged servers and
      the shared ones of the others, as far as they are tagged, and make it active. */
  lemma LimitsArrive(s: St, t: nat, p: nat, flags: seq<bool>, vals: seq<int>) returns (acts: seq<Act>, l': Local)
    requires Inv(s) && t < |s.threads| && s.threads[t].pc == Idle
    requires p < |s.pubs| && s.pubs[p].pc == Done && |flags| == |s.shm.tags| && |vals| == |s.shm.vals|
    ensures var r := Run(s, acts);
            && |r.locals| == |r.threads| == |s.threads| && r.threads[t].pc == Idle && r.locals[t] == l'
            && r.shm.tags == s.shm.tags && l'.active && l'.stamp == r.shm.stamp && |l'.vals| == |s.shm.vals|
    ensures forall j :: 0 <= j < |s.shm.vals| && s.shm.tags[j / 4] ==>
              l'.vals[j] == if flags[j / 4] then vals[j] else s.shm.vals[j]
  {
    StampIsUsed(s, t);
    hide Inv, Run;
    var a, m := Publishes(s, p, flags, vals);
    var r := Run(s, a);
    var b;
    b, l' := CatchesUp(r, t);
    RunAdd(s, a, b);
    acts := a + b;
  }

  /** No process has the stamp the clock is about to give. */
  lemma StampIsUsed(s: St, t: nat)
    requires Inv(s) && t < |s.threads|
    ensures Sized(s) && |s.locals| == |s.threads| && s.threads[t].proc == t && s.locals[t].stamp != s.shm.clock
  {
    assert ThreadOk(s.shm, s.pubs, s.threads[t].pc, s.locals[t]);
  }

  /** A publisher changes parameter 0. */
  lemma Published(s: St, p: nat) returns (acts: seq<Act>, m: Shm, pub: Pub)
    requires Sized(s) && p < |s.pubs| && s.pubs[p].pc == Done && |s.shm.tags| > 0
    ensures Run(s, acts) == AfterPub(s, p, m, pub) && pub.pc == Done && SameSizes(s, m)
    ensures m.stamp == s.shm.clock && m.ready == s.shm.ready && !m.disabled && m.tags == s.shm.tags
    ensures m.vals[0] == s.shm.vals[0] + 1
  {
    var flags, vals := seq(|s.shm.tags|, _ => true), s.shm.vals[0 := s.shm.vals[0] + 1];
    acts, m := Publishes(s, p, flags, vals);
    pub := Pub(Done, flags, vals);
  }

  lemma LoadsFirst(s: St, t: nat, l: Local) returns (acts: seq<Act>)
    requires Sized(s) && t < |s.threads| && |l.vals| == |s.shm.vals| && |s.shm.tags| > 0 && s.shm.tags[0]
    ensures Sized(After(s, t, HaveStamp(s.shm.stamp), l))
    ensures Run(After(s, t, HaveStamp(s.shm.stamp), l), acts) ==
            After(s, t, HaveField(0, s.shm.vals[0]), l.(stamp := s.shm.stamp))
  {
    hide After, Run;
    var step := [ReaderStep(t)];
    Moved(s, t, HaveStamp(s.shm.stamp), l);
    Moved(s, t, Copy(0), l.(stamp := s.shm.stamp));
    RunAdd(After(s, t, HaveStamp(s.shm.stamp), l), step, step);
    acts := step + step;
  }

  /** A thread stopped between loading parameter 0 and storing it. */
  lemma StopsInCopy(s: St, t: nat) returns (acts: seq<Act>, l': Local)
    requires Sized(s) && t < |s.threads| && s.threads[t].pc == Waiting && s.shm.ready && !s.shm.disabled
    requires |s.shm.tags| > 0 && s.shm.tags[0]
    ensures Run(s, acts) == After(s, t, HaveField(0, s.shm.vals[0]), l') && |l'.vals| == |s.shm.vals|
  {
    var l, step := s.locals[s.threads[t].proc], [ReaderStep(t)];
    DueMoves(s, t);
    hide After, Run, Due;
    var a, l1 := LoadsStamp(s, t, l);
    l' := l1.(stamp := s.shm.stamp);
    var b := LoadsFirst(s, t, l1);
    RunAdd(After(s, t, CheckDisabled, l), a, b);
    RunAdd(s, step, a + b);
    acts := step + (a + b);
  }

  /** It finishes with the old value. */
  lemma StoresLate(s: St, t: nat, v: int) returns (acts: seq<Act>, l': Local)
    requires Sized(s) && t < |s.threads| && s.threads[t].pc == HaveField(0, v) && |s.shm.vals| > 0
    ensures Run(s, acts) == After(s, t, Idle, l') && |l'.vals| == |s.shm.vals|
    ensures l'.vals[0] == v && l'.stamp == s.locals[s.threads[t].proc].stamp
  {
    var l := s.locals[s.threads[t].proc];
    ThenSame(s, t);
    hide After, Run;
    Moved(s, t, HaveField(0, v), l);
    var rest;
    rest, l' := CopyRuns(s, t, 1, l.(vals := l.vals[0 := v]));
    RunAdd(s, [ReaderStep(t)], rest);
    acts := [ReaderStep(t)] + rest;
  }

  /** Why the agreement needs single-threaded processes: of two threads of one process, one
      stores an old value after the other has completed the copy of the new ones. */
  lemma TwoThreadsDisagree(s: St, t: nat, u: nat, p: nat) returns (acts: seq<Act>)
    requires Settled(s) && t < |s.threads| && u < |s.threads| && t != u && s.threads[t].proc == s.threads[u].proc
    requires p < |s.pubs| && |s.shm.tags| > 0 && s.shm.tags[0]
    ensures var r := Run(s, acts);
            && t < |r.threads| && u < |r.threads| && r.threads[t].pc == Idle && r.threads[u].pc == Idle
            && Quiet(r) && r.shm.ready && r.locals[r.threads[t].proc].stamp == r.shm.stamp
            && !Agrees(r, r.threads[t].proc)
  {
    hide Run;
    var a, l1 := StopsInCopy(s, t);
    var s1 := Run(s, a);
    var b, m, pub := Published(s1, p);
    var s2 := Run(s1, b);
    var c, l2 := CatchesUp(s2, u);
    var s3 := Run(s2, c);
    var d, l3 := StoresLate(s3, t, s.shm.vals[0]);
    RunAdd(s2, c, d);
    RunAdd(s1, b, c + d);
    RunAdd(s, a, b + (c + d));
    acts := a + (b + (c + d));
  }
}
