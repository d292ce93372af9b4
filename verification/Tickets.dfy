/** Many threads of many processes in the throttle: the shared counters of every server behind the
    one shared mutex, one load or store at a time. */
module Tickets {
  import RateLimiter

  /** Where a thread is. n is its ticket, the value of the call counter it read. */
  datatype Pc =
    | Idle
    | Enter
    | Counting
    | Counted(n: nat)
    | Leaving(n: nat)
    | Stamped(n: nat)
    | WantSleep(n: nat)
    | Sleeping(n: nat)
    | DelayRead(n: nat, m: nat)
    | DelayDone(n: nat)

  /** A thread, and the server its call is for. */
  datatype Thread = Thread(sv: nat, pc: Pc)

  /** The counters of a server. drawn lists the tickets in the order their draws were stored, late
      says which of them have been counted as delayed. */
  datatype Server = Server(count: nat, delayed: nat, drawn: seq<nat>, late: seq<bool>)

  /** holder is the thread in the mutex, or -1. */
  datatype St = St(holder: int, servers: seq<Server>, threads: seq<Thread>)

  /** A step of thread t; a new call is for server sv, and wants says whether the rate rule or a
      slow operation asks for a sleep. */
  datatype Act = Act(t: nat, sv: nat, wants: bool)

  /** One step of thread t in a call, at pc, with the counters v of its server. */
  function Move(holder: int, v: Server, t: nat, pc: Pc, wants: bool): (int, Server, Pc) {
    match pc
    case Idle => (holder, v, Idle)
    case Enter => if holder == -1 then (t, v, Counting) else (holder, v, pc)
    case Counting => (holder, v, Counted(v.count))
    case Counted(n) => (holder, v.(count := n + 1, drawn := v.drawn + [n], late := v.late + [false]), Leaving(n))
    case Leaving(n) => (-1, v, Stamped(n))
    case Stamped(n) => (holder, v, if n > RateLimiter.N_SAMPLE_FOR_AVG && wants then WantSleep(n) else Idle)
    case WantSleep(n) => if holder == -1 then (t, v, Sleeping(n)) else (holder, v, pc)
    case Sleeping(n) => (holder, v, DelayRead(n, v.delayed))
    case DelayRead(n, m) =>
      (holder, v.(delayed := m + 1, late := if n < |v.late| then v.late[n := true] else v.late), DelayDone(n))
    case DelayDone(n) => (-1, v, Idle)
  }

  function Next(s: St, a: Act): St {
    if a.t >= |s.threads| then s
    else
      var th := s.threads[a.t];
      if th.pc == Idle then
        if a.sv < |s.servers| then s.(threads := s.threads[a.t := Thread(a.sv, Enter)]) else s
      else if th.sv >= |s.servers| then s
      else
        var (holder, v, pc) := Move(s.holder, s.servers[th.sv], a.t, th.pc, a.wants);
        St(holder, s.servers[th.sv := v], s.threads[a.t := Thread(th.sv, pc)])
  }

  function Run(s: St, acts: seq<Act>): St {
    if acts == [] then s else Next(Run(s, acts[..|acts| - 1]), acts[|acts| - 1])
  }

  predicate Init(s: St) {
    && s.holder == -1 && (forall t :: 0 <= t < |s.threads| ==> s.threads[t].pc == Idle)
    && forall i :: 0 <= i < |s.servers| ==> s.servers[i] == Server(0, 0, [], [])
  }

  predicate Holding(pc: Pc) {
    pc.Counting? || pc.Counted? || pc.Leaving? || pc.Sleeping? || pc.DelayRead? || pc.DelayDone?
  }

  /** The thread has a ticket of its own. */
  predicate HasTicket(pc: Pc) {
    pc.Leaving? || pc.Stamped? || pc.WantSleep? || pc.Sleeping? || pc.DelayRead? || pc.DelayDone?
  }

  /** It will, or may, still count itself as delayed. */
  predicate Undecided(pc: Pc) {
    pc.Leaving? || pc.Stamped? || pc.WantSleep? || pc.Sleeping? || pc.DelayRead?
  }

  function CountTrue(b: seq<bool>): (n: nat) {
    if b == [] then 0 else CountTrue(b[..|b| - 1]) + (if b[|b| - 1] then 1 else 0)
  }

  predicate Exclusive(s: St) {
    && -1 <= s.holder < |s.threads|
    && forall t :: 0 <= t < |s.threads| ==> (Holding(s.threads[t].pc) <==> t == s.holder)
  }

  /** The values read inside the mutex are still current, and the tickets are below the count. */
  predicate Fits(v: Server, pc: Pc) {
    && (pc.Counted? ==> pc.n == v.count) && (pc.DelayRead? ==> pc.m == v.delayed)
    && (HasTicket(pc) ==> pc.n < v.count)
    && (Undecided(pc) ==> pc.n < |v.late| && !v.late[pc.n])
    && (Undecided(pc) && !pc.Leaving? && !pc.Stamped? ==> pc.n > 3)
  }

  /** Every thread in a call fits its server. */
  predicate AllFit(s: St) {
    forall t :: 0 <= t < |s.threads| && s.threads[t].pc != Idle ==>
      s.threads[t].sv < |s.servers| && Fits(s.servers[s.threads[t].sv], s.threads[t].pc)
  }

  /** Two calls to one server never have one ticket. */
  predicate OwnTickets(s: St) {
    forall t, u :: 0 <= t < u < |s.threads| && s.threads[t].sv == s.threads[u].sv
                   && HasTicket(s.threads[t].pc) && HasTicket(s.threads[u].pc) ==>
      s.threads[t].pc.n != s.threads[u].pc.n
  }

  /** The delayed counter counts tickets, each once and none below 4. */
  predicate Ledger(v: Server) {
    && |v.drawn| == |v.late| == v.count && v.delayed == CountTrue(v.late)
    && (forall i :: 0 <= i < |v.drawn| ==> v.drawn[i] == i)
    && forall i :: 0 <= i < |v.late| && i <= 3 ==> !v.late[i]
  }

  predicate Ledgers(s: St) { forall i :: 0 <= i < |s.servers| ==> Ledger(s.servers[i]) }

  predicate Inv(s: St) { Exclusive(s) && AllFit(s) && OwnTickets(s) && Ledgers(s) }

  lemma {:induction false} CountSet(b: seq<bool>, n: nat)
    requires n < |b| && !b[n]
    ensures CountTrue(b[n := true]) == CountTrue(b) + 1
  {
    var b' := b[n := true];
    if n < |b| - 1 {
      CountSet(b[..|b| - 1], n);
      assert b'[..|b| - 1] == b[..|b| - 1][n := true];
    } else {
      assert b'[..|b| - 1] == b[..|b| - 1];
    }
  }

  lemma CountAppend(b: seq<bool>)
    ensures CountTrue(b + [false]) == CountTrue(b)
  {
    assert (b + [false])[..|b|] == b;
  }

  lemma ExclusiveKept(s: St, a: Act)
    requires Inv(s)
    ensures Exclusive(Next(s, a))
  {
    hide Fits, Ledger, OwnTickets;
  }

  /** A step keeps the thread fitting, and its server's ledger. */
  lemma MoveFits(holder: int, v: Server, t: nat, pc: Pc, wants: bool)
    requires Fits(v, pc) && Ledger(v)
    ensures var (_, v', pc') := Move(holder, v, t, pc, wants); (pc' != Idle ==> Fits(v', pc')) && Ledger(v')
  {
    hide CountTrue;
    CountAppend(v.late);
    if pc.DelayRead? {
      CountSet(v.late, pc.n);
    }
  }

  /** Other threads keep fitting: inside the mutex there are none, and tickets differ. */
  lemma MoveFitsOthers(holder: int, v: Server, t: nat, pc: Pc, wants: bool, other: Pc)
    requires Fits(v, pc) && Ledger(v) && Fits(v, other) && (Holding(pc) ==> !Holding(other))
    requires HasTicket(pc) && HasTicket(other) ==> pc.n != other.n
    ensures var (_, v', _) := Move(holder, v, t, pc, wants); Fits(v', other)
  {
    hide CountTrue;
  }

  lemma FitKept(s: St, a: Act)
    requires Inv(s)
    ensures AllFit(Next(s, a)) && Ledgers(Next(s, a))
  {
    hide Fits, Ledger, Move;
    if a.t < |s.threads| {
      var th := s.threads[a.t];
      if th.pc == Idle {
        StartFits(s.servers, a.sv);
      } else {
        var s' := Next(s, a);
        MoveFits(s.holder, s.servers[th.sv], a.t, th.pc, a.wants);
        forall u | 0 <= u < |s'.threads| && s'.threads[u].pc != Idle
          ensures s'.threads[u].sv < |s'.servers| && Fits(s'.servers[s'.threads[u].sv], s'.threads[u].pc)
        {
          if u != a.t && s.threads[u].sv == th.sv {
            MoveFitsOthers(s.holder, s.servers[th.sv], a.t, th.pc, a.wants, s.threads[u].pc);
          }
        }
      }
    }
  }

  lemma StartFits(servers: seq<Server>, sv: nat)
    ensures sv < |servers| ==> Fits(servers[sv], Enter)
  {
  }

  lemma OwnTicketsKept(s: St, a: Act)
    requires Inv(s)
    ensures OwnTickets(Next(s, a))
  {
    hide Ledger, CountTrue;
    if a.t < |s.threads| && s.threads[a.t].pc != Idle {
      var th := s.threads[a.t];
      TicketKept(s.holder, s.servers[th.sv], a.t, th.pc, a.wants);
      hide Move;
      var s' := Next(s, a);
      forall t, u | 0 <= t < u < |s'.threads| && s'.threads[t].sv == s'.threads[u].sv
                    && HasTicket(s'.threads[t].pc) && HasTicket(s'.threads[u].pc)
        ensures s'.threads[t].pc.n != s'.threads[u].pc.n
      {
        assert Fits(s.servers[s.threads[t].sv], s.threads[t].pc) || t == a.t;
        assert Fits(s.servers[s.threads[u].sv], s.threads[u].pc) || u == a.t;
      }
    }
  }

  /** A ticket stays, or is drawn as the count. */
  lemma TicketKept(holder: int, v: Server, t: nat, pc: Pc, wants: bool)
    requires Fits(v, pc)
    ensures var (_, v', pc') := Move(holder, v, t, pc, wants);
            HasTicket(pc') ==> if HasTicket(pc) then pc'.n == pc.n else pc'.n == v.count
  {
  }

  lemma InvKept(s: St, a: Act)
    requires Inv(s)
    ensures Inv(Next(s, a))
  {
    ExclusiveKept(s, a);
    FitKept(s, a);
    OwnTicketsKept(s, a);
  }

  lemma {:induction false} RunKeepsInv(s: St, acts: seq<Act>)
    requires Init(s)
    ensures Inv(Run(s, acts)) && |Run(s, acts).threads| == |s.threads| && |Run(s, acts).servers| == |s.servers|
  {
    if acts != [] {
      var init, a := acts[..|acts| - 1], acts[|acts| - 1];
      RunKeepsInv(s, init);
      InvKept(Run(s, init), a);
    }
  }

  /** In every interleaving the tickets drawn at a server are 0, 1, 2, ... in turn, and no two
      threads have the same one. */
  lemma TicketsConsecutive(s: St, acts: seq<Act>, sv: nat, t: nat, u: nat)
    requires Init(s) && sv < |s.servers| && t < u < |s.threads|
    ensures var r := Run(s, acts);
            && |r.servers| == |s.servers| && |r.threads| == |s.threads|
            && |r.servers[sv].drawn| == r.servers[sv].count
            && (forall i :: 0 <= i < r.servers[sv].count ==> r.servers[sv].drawn[i] == i)
            && (r.threads[t].sv == r.threads[u].sv && HasTicket(r.threads[t].pc) && HasTicket(r.threads[u].pc) ==>
                r.threads[t].pc.n != r.threads[u].pc.n)
  {
    RunKeepsInv(s, acts);
    hide CountTrue;
    assert Ledger(Run(s, acts).servers[sv]);
  }

  /** At most one thread sleeps at a time, whatever servers the calls are for. */
  lemma OneSleeper(s: St, acts: seq<Act>, t: nat, u: nat)
    requires Init(s) && t < |s.threads| && u < |s.threads|
    ensures var r := Run(s, acts);
            && |r.threads| == |s.threads|
            && (r.threads[t].pc.Sleeping? && r.threads[u].pc.Sleeping? ==> t == u)
  {
    RunKeepsInv(s, acts);
    hide Ledgers, OwnTickets, AllFit;
  }

  lemma {:induction false} CountLate(b: seq<bool>)
    requires forall i :: 0 <= i < |b| && i <= 3 ==> !b[i]
    ensures CountTrue(b) <= if |b| <= 4 then 0 else |b| - 4
  {
    if b != [] {
      CountLate(b[..|b| - 1]);
    }
  }

  /** The first four calls to a server are never delayed, and no call is counted twice. */
  lemma DelayedBound(s: St, acts: seq<Act>, sv: nat)
    requires Init(s) && sv < |s.servers|
    ensures var r := Run(s, acts);
            && |r.servers| == |s.servers|
            && r.servers[sv].delayed <= if r.servers[sv].count <= 4 then 0 else r.servers[sv].count - 4
  {
    RunKeepsInv(s, acts);
    assert Ledger(Run(s, acts).servers[sv]);
    CountLate(Run(s, acts).servers[sv].late);
  }

  /** Two calls to one server under way write to one ring slot only if 512, or a multiple of it,
      lie between their tickets. */
  lemma SlotShared(s: St, acts: seq<Act>, t: nat, u: nat)
    requires Init(s) && t < |s.threads| && u < |s.threads| && t != u
    ensures var r := Run(s, acts);
            && |r.threads| == |s.threads|
            && var x, y := r.threads[t], r.threads[u];
               x.sv == y.sv && HasTicket(x.pc) && HasTicket(y.pc) && x.pc.n <= y.pc.n ==>
                 (x.pc.n % RateLimiter.MAX_REC == y.pc.n % RateLimiter.MAX_REC <==>
                  exists k: nat :: k > 0 && y.pc.n == x.pc.n + 512 * k)
  {
    RunKeepsInv(s, acts);
    hide Ledgers, AllFit;
    var r := Run(s, acts);
    var x, y := r.threads[t], r.threads[u];
    if x.sv == y.sv && HasTicket(x.pc) && HasTicket(y.pc) && x.pc.n <= y.pc.n {
      RateLimiter.SameSlot(x.pc.n, y.pc.n);
    }
  }

  // ----- every call ends

  lemma {:induction false} RunAdd(s: St, a: seq<Act>, b: seq<Act>)
    ensures Run(s, a + b) == Run(Run(s, a), b)
  {
    hide Next;
    if b == [] {
      assert a + b == a;
    } else {
      var init := b[..|b| - 1];
      assert (a + b)[..|a + b| - 1] == a + init;
      RunAdd(s, a, init);
    }
  }

  lemma RunOne(s: St, a: Act)
    ensures Run(s, [a]) == Next(s, a)
  {
    hide Next;
    assert [a][..0] == [];
  }

  /** How many steps the thread has to go, if it has to sleep. */
  function Ahead(pc: Pc): nat {
    match pc
    case Idle => 0
    case Enter => 9
    case Counting => 8
    case Counted(_) => 7
    case Leaving(_) => 6
    case Stamped(_) => 5
    case WantSleep(_) => 4
    case Sleeping(_) => 3
    case DelayRead(_, _) => 2
    case DelayDone(_) => 1
  }

  /** It has no ticket stored yet. */
  predicate Drawing(pc: Pc) { pc.Enter? || pc.Counting? || pc.Counted? }

  /** It will count itself as delayed: its ticket is above 3 and it wants to, or it has decided so. */
  predicate WillDelay(v: Server, pc: Pc, wants: bool) {
    if Drawing(pc) then v.count > 3 && wants
    else if pc.Leaving? || pc.Stamped? then pc.n > 3 && wants
    else pc.WantSleep? || pc.Sleeping? || pc.DelayRead?
  }

  /** What is left of a call that nobody else disturbs, at pc with counters v, ends with v'. */
  predicate Ends(v: Server, pc: Pc, wants: bool, v': Server) {
    && v'.count == v.count + (if Drawing(pc) then 1 else 0)
    && v'.delayed == v.delayed + (if WillDelay(v, pc, wants) then 1 else 0)
    && v'.drawn == v.drawn + (if Drawing(pc) then [v.count] else [])
  }

  lemma MoveEnds(holder: int, v: Server, t: nat, pc: Pc, wants: bool, end: Server)
    requires pc != Idle && (holder == if Holding(pc) then t else -1) && Fits(v, pc)
    ensures var (holder', v', pc') := Move(holder, v, t, pc, wants);
            && Ahead(pc') < Ahead(pc) && (holder' == if Holding(pc') then t else -1)
            && (Ends(v', pc', wants, end) ==> Ends(v, pc, wants, end))
  {
  }

  predicate OnlyThread(acts: seq<Act>, t: nat, wants: bool) {
    forall i :: 0 <= i < |acts| ==> acts[i].t == t && acts[i].wants == wants
  }

  /** A thread left to itself ends its call, unless another one is in the mutex: the mutex is free, its
      server has one call more if the ticket was not yet drawn, one delayed call more exactly if
      the ticket is above 3 and the thread wants to sleep, and nothing else changes. */
  lemma {:induction false} LeftAlone(s: St, t: nat, wants: bool) returns (acts: seq<Act>, v: Server)
    requires Inv(s) && t < |s.threads| && s.threads[t].pc != Idle && (s.holder == -1 || s.holder == t)
    ensures s.threads[t].sv < |s.servers| && OnlyThread(acts, t, wants)
    ensures Run(s, acts) == St(-1, s.servers[s.threads[t].sv := v], s.threads[t := Thread(s.threads[t].sv, Idle)])
    ensures Ends(s.servers[s.threads[t].sv], s.threads[t].pc, wants, v)
    decreases Ahead(s.threads[t].pc)
  {
    hide Move, Fits, Ledgers, Ahead, Ends, Run, OwnTickets;
    var th, a := s.threads[t], Act(t, 0, wants);
    var s' := Next(s, a);
    InvKept(s, a);
    RunOne(s, a);
    var (holder', v', pc') := Move(s.holder, s.servers[th.sv], t, th.pc, wants);
    if pc' == Idle {
      acts, v := [a], v';
      MoveEnds(s.holder, s.servers[th.sv], t, th.pc, wants, v);
      IdleEnds(v', wants);
    } else {
      MoveEnds(s.holder, s.servers[th.sv], t, th.pc, wants, v');
      var rest;
      rest, v := LeftAlone(s', t, wants);
      MoveEnds(s.holder, s.servers[th.sv], t, th.pc, wants, v);
      RunAdd(s, [a], rest);
      acts := [a] + rest;
    }
  }

  lemma IdleEnds(v: Server, wants: bool)
    ensures Ends(v, Idle, wants, v)
  {
  }

  /** A whole call of one thread while the mutex is free and nobody else moves. */
  lemma CallCompletes(s: St, t: nat, sv: nat, wants: bool) returns (acts: seq<Act>, v: Server)
    requires Inv(s) && t < |s.threads| && s.threads[t].pc == Idle && s.holder == -1 && sv < |s.servers|
    ensures OnlyThread(acts, t, wants)
    ensures Run(s, acts) == St(-1, s.servers[sv := v], s.threads[t := Thread(sv, Idle)])
    ensures v.count == s.servers[sv].count + 1 && v.drawn == s.servers[sv].drawn + [s.servers[sv].count]
    ensures v.delayed == s.servers[sv].delayed + (if s.servers[sv].count > 3 && wants then 1 else 0)
  {
    hide Run, Inv;
    var a := Act(t, sv, wants);
    InvKept(s, a);
    RunOne(s, a);
    var rest;
    rest, v := LeftAlone(Next(s, a), t, wants);
    RunAdd(s, [a], rest);
    acts := [a] + rest;
  }

  /** No interleaving gets stuck: from every reachable state every call can end, after the call
      of the thread in the mutex, if there is one. */
  lemma EveryCallEnds(s: St, acts: seq<Act>, t: nat, wants: bool) returns (more: seq<Act>)
    requires Init(s) && t < |s.threads|
    ensures var r := Run(s, acts + more);
            && |r.threads| == |Run(s, acts).threads| == |s.threads| && r.threads[t].pc == Idle && r.holder == -1
            && forall u :: 0 <= u < |s.threads| && u != t && u != Run(s, acts).holder ==>
                 r.threads[u] == Run(s, acts).threads[u]
  {
    RunKeepsInv(s, acts);
    var now := Run(s, acts);
    hide Run, Inv, Init;
    var first, rest, v := [], [], Server(0, 0, [], []);
    HolderIsThread(now);
    if now.holder != -1 {
      first, v := LeftAlone(now, now.holder, wants);
    } else {
      NoSteps(now);
    }
    var mid := Run(now, first);
    RunAdd(s, acts, first);
    RunKeepsInv(s, acts + first);
    if mid.threads[t].pc != Idle {
      rest, v := LeftAlone(mid, t, wants);
    } else {
      NoSteps(mid);
    }
    more := first + rest;
    RunAdd(now, first, rest);
    RunAdd(s, acts, more);
  }

  lemma NoSteps(s: St)
    ensures Run(s, []) == s
  {
  }

  lemma HolderIsThread(s: St)
    requires Inv(s)
    ensures s.holder == -1 || (0 <= s.holder < |s.threads| && s.threads[s.holder].pc != Idle)
  {
    hide AllFit, OwnTickets, Ledgers;
    assert forall t :: 0 <= t < |s.threads| ==> (Holding(s.threads[t].pc) <==> t == s.holder);
  }
}
