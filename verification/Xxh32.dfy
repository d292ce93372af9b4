/** XXH32: the published description of the hash as functions, the one-shot and the streaming
    code as methods proved against it, and the invertibility of its tail. */
module Xxh32 {
  import opened Words32
  import opened Chunks

  const PRIME1: U32 := 2654435761
  const PRIME2: U32 := 2246822519
  const PRIME5: U32 := 374761393

  // The digest holds lengths modulo 2^32.
  const TWO32: nat := 0x1_0000_0000

  function Length32(n: nat): U32 { (n % TWO32) as U32 }

  function Round(acc: U32, input: U32): U32 {
    MulPrime1(Rotl13(Add(acc, MulPrime2(input))))
  }

  function Avalanche(h: U32): U32 {
    Fold16(MulPrime3(Fold13(MulPrime2(Fold15(h)))))
  }

  // ----- the algorithm description: lanes, stripes, tail

  datatype Lanes = Lanes(v1: U32, v2: U32, v3: U32, v4: U32)

  function InitLanes(seed: U32): Lanes {
    Lanes(Add(Add(seed, PRIME1), PRIME2), Add(seed, PRIME2), Add(seed, 0), Sub(seed, PRIME1))
  }

  function StripeRound(v: Lanes, stripe: seq<Byte>): Lanes
    requires |stripe| == 16
  {
    Lanes(Round(v.v1, Read32(stripe[0..4])), Round(v.v2, Read32(stripe[4..8])),
          Round(v.v3, Read32(stripe[8..12])), Round(v.v4, Read32(stripe[12..16])))
  }

  /** The lanes after every whole stripe of s. */
  function Stripes(v: Lanes, s: seq<Byte>): Lanes
    decreases |s|
  {
    if |s| < 16 then v else Stripes(StripeRound(v, s[..16]), s[16..])
  }

  /** The bytes after the last whole stripe. */
  function Rest(s: seq<Byte>): (r: seq<Byte>)
    ensures |r| == |s| % 16
  {
    s[|s| - |s| % 16..]
  }

  function Converge(v: Lanes): U32 {
    Add(Add(Add(Rotl1(v.v1), Rotl7(v.v2)), Rotl12(v.v3)), Rotl18(v.v4))
  }

  datatype Unit = Four | One

  function Width(u: Unit): nat {
    match u case Four => 4 case One => 1
  }

  function Key(u: Unit, p: seq<Byte>): U32
    requires |p| == Width(u)
  {
    match u
    case Four => MulPrime3(Read32(p))
    case One => MulPrime5(p[0] as U32)
  }

  function Mix(u: Unit, x: U32): U32 {
    match u
    case Four => MulPrime4(Rotl17(x))
    case One => MulPrime1(Rotl11(x))
  }

  /** One unit of the tail absorbed into the accumulator. */
  function Absorb(u: Unit, h: U32, p: seq<Byte>): U32
    requires |p| == Width(u)
  {
    Mix(u, Add(h, Key(u, p)))
  }

  /** The description takes the widest unit that still fits. */
  function NextUnit(n: nat): (u: Unit)
    requires n > 0
    ensures Width(u) <= n
  {
    if n >= 4 then Four else One
  }

  function Tail(h: U32, t: seq<Byte>): U32
    decreases |t|
  {
    if t == [] then h
    else
      var u := NextUnit(|t|);
      Tail(Absorb(u, h, t[..Width(u)]), t[Width(u)..])
  }

  function Hash(input: seq<Byte>, seed: U32): U32 {
    var acc := if |input| >= 16 then Converge(Stripes(InitLanes(seed), input)) else Add(seed, PRIME5);
    Avalanche(Tail(Add(acc, Length32(|input|)), Rest(input)))
  }

  // ----- finalize: a switch whose cases fall through

  datatype Row = Row(at: nat, units: seq<Unit>, leaves: bool)

  const ROWS: nat := 16

  /** The case labels in the order of the switch, with what each runs before the next label. */
  function RowAt(i: nat): Row
    requires i < ROWS
  {
    match i
    case 0 => Row(12, [Four], false)
    case 1 => Row(8, [Four], false)
    case 2 => Row(4, [Four], true)
    case 3 => Row(13, [Four], false)
    case 4 => Row(9, [Four], false)
    case 5 => Row(5, [Four, One], true)
    case 6 => Row(14, [Four], false)
    case 7 => Row(10, [Four], false)
    case 8 => Row(6, [Four, One, One], true)
    case 9 => Row(15, [Four], false)
    case 10 => Row(11, [Four], false)
    case 11 => Row(7, [Four], false)
    case 12 => Row(3, [One], false)
    case 13 => Row(2, [One], false)
    case 14 => Row(1, [One], false)
    case _ => Row(0, [], true)
  }

  /** Where the switch jumps to. */
  function Entry(n: nat, from: nat): (i: nat)
    requires from <= ROWS
    ensures from <= i <= ROWS
    ensures i < ROWS ==> RowAt(i).at == n
    ensures forall j :: from <= j < i ==> RowAt(j).at != n
    decreases ROWS - from
  {
    if from == ROWS || RowAt(from).at == n then from else Entry(n, from + 1)
  }

  /** Taking units[k..] greedily leads from n bytes left to m bytes left. */
  predicate Takes(units: seq<Unit>, k: nat, n: nat, m: nat)
    requires k <= |units|
    decreases |units| - k
  {
    if k == |units| then n == m
    else n > 0 && units[k] == NextUnit(n) && Takes(units, k + 1, n - Width(units[k]), m)
  }

  /** Row by row, the switch takes greedily down to the next label, or down to nothing. */
  lemma RowTakes(i: nat)
    requires i < ROWS
    ensures Takes(RowAt(i).units, 0, RowAt(i).at,
                  if RowAt(i).leaves || i + 1 == ROWS then 0 else RowAt(i + 1).at)
  {
    var units, n := RowAt(i).units, RowAt(i).at;
    if |units| > 2 {
      assert Takes(units, 2, |units| - 2, 0);
    }
    if |units| > 1 {
      assert Takes(units, 1, |units| - 1, 0);
    }
  }

  /** Every remainder has its label: the assert(0) after the switch is dead. */
  lemma EveryLabelPresent(n: nat)
    requires n < 16
    ensures Entry(n, 0) < ROWS
  {
    hide Entry;
    var row := match n
      case 0 => 15 case 1 => 14 case 2 => 13 case 3 => 12 case 4 => 2 case 5 => 5 case 6 => 8 case 7 => 11
      case 8 => 1 case 9 => 4 case 10 => 7 case 11 => 10 case 12 => 0 case 13 => 3 case 14 => 6 case _ => 9;
    assert RowAt(row).at == n;
  }

  /** XXH32_finalize: enter the switch at len & 15 and fall through to a return. */
  method Finalize(h0: U32, ptr: seq<Byte>, len: nat) returns (h: U32)
    requires len % 16 <= |ptr|
    ensures h == Avalanche(Tail(h0, ptr[..len % 16]))
  {
    hide Avalanche, Absorb, RowAt, Tail;
    h := h0;
    var p, end := 0, len % 16;
    EveryLabelPresent(end);
    var i := Entry(end, 0);
    ghost var goal := Tail(h0, ptr[..end]);
    while true
      invariant i < ROWS && 0 <= p && end - p == RowAt(i).at
      invariant Tail(h, ptr[p..end]) == goal
      decreases ROWS - i
    {
      RowTakes(i);
      ghost var next := if RowAt(i).leaves || i + 1 == ROWS then 0 else RowAt(i + 1).at;
      var units := RowAt(i).units;
      for k := 0 to |units|
        invariant 0 <= p <= end && Takes(units, k, end - p, next)
        invariant Tail(h, ptr[p..end]) == goal
      {
        var w := Width(units[k]);
        TailAt(h, ptr, p, end);
        h := Absorb(units[k], h, ptr[p..p + w]);
        p := p + w;
      }
      if RowAt(i).leaves || i + 1 == ROWS {
        break;
      }
      i := i + 1;
    }
    TailOfNothing(h, ptr[p..end]);
    h := Avalanche(h);
  }

  lemma TailAt(h: U32, s: seq<Byte>, p: nat, end: nat)
    requires p < end <= |s|
    ensures var u := NextUnit(end - p);
            Tail(h, s[p..end]) == Tail(Absorb(u, h, s[p..p + Width(u)]), s[p + Width(u)..end])
  {
    hide Absorb;
    var w := Width(NextUnit(end - p));
    assert s[p..end][..w] == s[p..p + w] && s[p..end][w..] == s[p + w..end];
  }

  lemma TailOfNothing(h: U32, t: seq<Byte>)
    requires t == []
    ensures Tail(h, t) == h
  {
  }

  /** XXH32: the whole input at once. The lane loop here tests p < bEnd - 15, the one of the
      update p <= bEnd - 16. */
  method OneShot(input: seq<Byte>, seed: U32) returns (h: U32)
    ensures h == Hash(input, seed)
  {
    hide Add, Sub, Length32, Round, Avalanche, Converge, Tail, Read32, Stripes, Rest;
    var len := |input|;
    var p := 0;
    if len >= 16 {
      var limit := len - 15;
      var v1 := Add(Add(seed, PRIME1), PRIME2);
      var v2 := Add(seed, PRIME2);
      var v3 := Add(seed, 0);
      var v4 := Sub(seed, PRIME1);
      // The guard holds on entry, so this is the do-while of the source.
      while p < limit
        invariant p <= len && p % 16 == 0
        invariant Stripes(Lanes(v1, v2, v3, v4), input[p..]) == Stripes(InitLanes(seed), input)
      {
        StripeAt(Lanes(v1, v2, v3, v4), input, p);
        v1 := Round(v1, Read32(input[p..p + 4]));
        p := p + 4;
        v2 := Round(v2, Read32(input[p..p + 4]));
        p := p + 4;
        v3 := Round(v3, Read32(input[p..p + 4]));
        p := p + 4;
        v4 := Round(v4, Read32(input[p..p + 4]));
        p := p + 4;
      }
      StripesOfRest(Lanes(v1, v2, v3, v4), input[p..]);
      h := Converge(Lanes(v1, v2, v3, v4));
    } else {
      h := Add(seed, PRIME5);
    }
    h := Add(h, Length32(len));
    RestAt(input, 0, p);
    assert input[0..] == input && input[p..][..len % 16] == input[p..];
    h := Finalize(h, input[p..], len % 16);
  }

  lemma StripesOfRest(v: Lanes, s: seq<Byte>)
    requires |s| < 16
    ensures Stripes(v, s) == v
  {
  }

  /** One turn of the lane loop takes one stripe. */
  lemma StripeAt(v: Lanes, s: seq<Byte>, p: nat)
    requires p + 16 <= |s|
    ensures Stripes(v, s[p..]) ==
            Stripes(Lanes(Round(v.v1, Read32(s[p..p + 4])), Round(v.v2, Read32(s[p + 4..p + 8])),
                          Round(v.v3, Read32(s[p + 8..p + 12])), Round(v.v4, Read32(s[p + 12..p + 16]))),
                    s[p + 16..])
  {
    hide Round, Read32;
    var stripe := s[p..][..16];
    assert s[p..][16..] == s[p + 16..];
    assert stripe[0..4] == s[p..p + 4] && stripe[4..8] == s[p + 4..p + 8];
    assert stripe[8..12] == s[p + 8..p + 12] && stripe[12..16] == s[p + 12..p + 16];
  }

  // ----- streaming

  /** The lanes ignore an incomplete last stripe, and hashing can resume from there. */
  lemma {:induction false} StripesResume(v: Lanes, data: seq<Byte>, more: seq<Byte>)
    ensures Stripes(v, data + more) == Stripes(Stripes(v, data), Rest(data) + more)
    decreases |data|
  {
    hide StripeRound, Stripes;
    if |data| < 16 {
      FewBytes(v, data);
      assert Rest(data) == data;
    } else {
      StripesResume(StripeRound(v, data[..16]), data[16..], more);
      assert (data + more)[..16] == data[..16] && (data + more)[16..] == data[16..] + more;
      OneStripe(v, data);
      OneStripe(v, data + more);
      assert Rest(data[16..]) == Rest(data);
    }
  }

  lemma FewBytes(v: Lanes, data: seq<Byte>)
    requires |data| < 16
    ensures Stripes(v, data) == v
  {
  }

  lemma OneStripe(v: Lanes, data: seq<Byte>)
    requires |data| >= 16
    ensures Stripes(v, data) == Stripes(StripeRound(v, data[..16]), data[16..])
  {
    hide StripeRound;
  }

  lemma RestAt(s: seq<Byte>, p0: nat, p: nat)
    requires p0 <= p <= |s| && (p - p0) % 16 == 0 && |s| - p < 16
    ensures s[p..] == Rest(s[p0..])
  {
  }

  /** XXH32_state_t. */
  class State {
    var totalLen32: nat
    var largeLen: bool
    var v1: U32
    var v2: U32
    var v3: U32
    var v4: U32
    const mem: array<Byte>
    var memsize: nat

    function V(): Lanes
      reads this
    {
      Lanes(v1, v2, v3, v4)
    }

    ghost predicate Valid()
      reads this, mem
    {
      mem.Length == 16 && memsize < 16
    }

    /** The state after hashing exactly `data` with `seed`. */
    ghost predicate Holds(data: seq<Byte>, seed: U32)
      reads this, mem
    {
      && Valid()
      && totalLen32 == |data| % TWO32
      && (largeLen <==> |data| >= 16)
      && mem[..memsize] == Rest(data)
      && V() == Stripes(InitLanes(seed), data)
    }

    constructor ()
      ensures Valid() && fresh(mem)
    {
      totalLen32, largeLen, memsize := 0, false, 0;
      v1, v2, v3, v4 := 0, 0, 0, 0;
      mem := new Byte[16];
    }

    /** XXH32_reset. */
    method Reset(seed: U32) returns (e: ErrorCode)
      requires Valid()
      modifies this, mem
      ensures e == OK && Holds([], seed)
    {
      hide Add, Sub, Stripes, Rest;
      StripesOfRest(InitLanes(seed), []);
      RestOfShort([]);
      totalLen32, largeLen, memsize := 0, false, 0;
      forall i | 0 <= i < mem.Length { mem[i] := 0; }
      v1 := Add(Add(seed, PRIME1), PRIME2);
      v2 := Add(seed, PRIME2);
      v3 := Add(seed, 0);
      v4 := Sub(seed, PRIME1);
      e := OK;
    }

    /** memcpy(mem + at, src, |src|). */
    method CopyIn(at: nat, src: seq<Byte>)
      requires Valid() && at + |src| <= 16
      modifies mem
      ensures mem[..] == old(mem[..at]) + src + old(mem[at + |src|..])
    {
      forall i | 0 <= i < |src| { mem[at + i] := src[i]; }
    }

    /** The lane loop of XXH32_update: every whole stripe of input[p..]. */
    method ConsumeStripes(input: seq<Byte>, p0: nat) returns (p: nat)
      requires p0 <= |input|
      modifies this`v1, this`v2, this`v3, this`v4
      ensures p0 <= p <= |input| && input[p..] == Rest(input[p0..])
      ensures V() == Stripes(old(V()), input[p0..])
    {
      hide Round, Read32, Stripes, Rest;
      p := p0;
      var bEnd := |input|;
      ghost var goal := Stripes(V(), input[p0..]);
      if p + 16 <= bEnd {
        var limit := bEnd - 16;
        var w1, w2, w3, w4 := v1, v2, v3, v4;
        while p <= limit
          invariant p <= bEnd && (p - p0) % 16 == 0
          invariant Stripes(Lanes(w1, w2, w3, w4), input[p..]) == goal
        {
          StripeAt(Lanes(w1, w2, w3, w4), input, p);
          w1 := Round(w1, Read32(input[p..p + 4]));
          p := p + 4;
          w2 := Round(w2, Read32(input[p..p + 4]));
          p := p + 4;
          w3 := Round(w3, Read32(input[p..p + 4]));
          p := p + 4;
          w4 := Round(w4, Read32(input[p..p + 4]));
          p := p + 4;
        }
        v1, v2, v3, v4 := w1, w2, w3, w4;
      }
      StripesOfRest(V(), input[p..]);
      RestAt(input, p0, p);
    }

    /** The first stripe, completed in mem. */
    method ConsumeBuffer()
      requires Valid()
      modifies this`v1, this`v2, this`v3, this`v4
      ensures V() == StripeRound(old(V()), mem[..])
    {
      hide Round, Read32;
      v1 := Round(v1, Read32(mem[0..4]));
      v2 := Round(v2, Read32(mem[4..8]));
      v3 := Round(v3, Read32(mem[8..12]));
      v4 := Round(v4, Read32(mem[12..16]));
      var s := mem[..];
      assert s[0..4] == mem[0..4] && s[4..8] == mem[4..8] && s[8..12] == mem[8..12] && s[12..16] == mem[12..16];
    }

    /** The part of XXH32_update after the length bookkeeping: lanes and buffer. */
    method Feed(input: seq<Byte>)
      requires Valid()
      modifies this`v1, this`v2, this`v3, this`v4, this`memsize, mem
      ensures Valid()
      ensures V() == Stripes(old(V()), old(mem[..memsize]) + input)
      ensures mem[..memsize] == Rest(old(mem[..memsize]) + input)
    {
      hide Stripes, StripeRound, Rest;
      var len := |input|;
      ghost var was, lanes := mem[..memsize], V();
      if memsize + len < 16 {
        CopyIn(memsize, input);
        memsize := memsize + len;
        assert mem[..memsize] == was + input;
        StripesOfRest(lanes, was + input);
        RestOfShort(was + input);
        return;
      }
      var p := 0;
      if memsize != 0 {
        CopyIn(memsize, input[..16 - memsize]);
        assert mem[..] == was + input[..16 - memsize];
        ConsumeBuffer();
        p := 16 - memsize;
        memsize := 0;
        FirstStripe(lanes, was, input, p);
      } else {
        assert was == [] && input[0..] == was + input;
      }
      RestIsShort(input[p..]);
      p := ConsumeStripes(input, p);
      if p < len {
        CopyIn(0, input[p..]);
        memsize := len - p;
      }
      assert mem[..memsize] == input[p..];
    }

    /** XXH32_update. */
    method Update(input: Input, ghost data: seq<Byte>, ghost seed: U32) returns (e: ErrorCode)
      requires Valid()
      modifies this, mem
      ensures Valid()
      ensures e == if input.Null? then ERROR else OK
      ensures input.Null? ==> unchanged(this) && unchanged(mem)
      ensures input.Bytes? && old(Holds(data, seed)) ==> Holds(data + input.data, seed)
    {
      hide Stripes, Rest, InitLanes;
      if input.Null? {
        return ERROR;
      }
      var len := |input.data|;
      ghost var was, lanes := mem[..memsize], V();
      totalLen32 := (totalLen32 + len % TWO32) % TWO32;
      largeLen := largeLen || len >= 16 || totalLen32 >= 16;
      Feed(input.data);
      if old(Holds(data, seed)) {
        Resumed(data, input.data, seed, lanes, was);
        LengthsResume(|data|, len);
      }
      e := OK;
    }

    /** XXH32_digest: large_len is sticky, so a wrapped total_len_32 does no harm. */
    method Digest(ghost data: seq<Byte>, ghost seed: U32) returns (h: U32)
      requires Valid() && Holds(data, seed)
      ensures h == Hash(data, seed)
    {
      hide Add, Avalanche, Converge, Tail, Stripes, InitLanes;
      if largeLen {
        h := Converge(V());
      } else {
        h := Add(v3, PRIME5);
        SeedInLane3(seed, data);
      }
      h := Add(h, totalLen32 as U32);
      h := Finalize(h, mem[..], memsize);
      assert mem[..][..memsize] == mem[..memsize];
    }
  }

  lemma SeedInLane3(seed: U32, data: seq<Byte>)
    requires |data| < 16
    ensures Stripes(InitLanes(seed), data).v3 == seed
  {
    hide StripeRound;
  }

  /** Reset, one update per chunk, digest: the one-shot hash of the concatenation, however the
      input was split and however long it is. */
  method Stream(chunks: seq<seq<Byte>>, seed: U32) returns (h: U32)
    ensures h == Hash(Concat(chunks), seed)
  {
    hide Hash, Stripes, InitLanes, Rest;
    var state := new State();
    var e := state.Reset(seed);
    for i := 0 to |chunks|
      invariant fresh(state) && fresh(state.mem)
      invariant state.Holds(Concat(chunks[..i]), seed)
    {
      e := state.Update(Bytes(chunks[i]), Concat(chunks[..i]), seed);
      assert chunks[..i + 1][..i] == chunks[..i];
    }
    assert chunks[..|chunks|] == chunks;
    h := state.Digest(Concat(chunks), seed);
  }

  lemma RestIsShort(s: seq<Byte>)
    ensures |Rest(s)| < 16
  {
  }

  lemma RestOfShort(s: seq<Byte>)
    requires |s| < 16
    ensures Rest(s) == s
  {
  }

  /** Completing the buffered stripe with the first bytes of the input. */
  lemma FirstStripe(v: Lanes, buffered: seq<Byte>, input: seq<Byte>, p: nat)
    requires |buffered| + p == 16 && p <= |input|
    ensures Stripes(StripeRound(v, buffered + input[..p]), input[p..]) == Stripes(v, buffered + input)
    ensures Rest(input[p..]) == Rest(buffered + input)
  {
    hide StripeRound;
    var s := buffered + input;
    assert s[..16] == buffered + input[..p] && s[16..] == input[p..];
  }

  /** What one update owes: lanes and buffer of the longer input. */
  lemma Resumed(data: seq<Byte>, more: seq<Byte>, seed: U32, lanes: Lanes, buffered: seq<Byte>)
    requires lanes == Stripes(InitLanes(seed), data) && buffered == Rest(data)
    ensures Stripes(lanes, buffered + more) == Stripes(InitLanes(seed), data + more)
    ensures Rest(buffered + more) == Rest(data + more)
  {
    hide Stripes, InitLanes;
    StripesResume(InitLanes(seed), data, more);
    RestResumes(data, more);
  }

  /** The wrapped sum is still at least 16 whenever it has to raise the flag. */
  lemma LengthsResume(n: nat, len: nat)
    ensures (n % TWO32 + len % TWO32) % TWO32 == (n + len) % TWO32
    ensures n < 16 && len < 16 ==> (n + len) % TWO32 == n + len
  {
  }

  lemma RestResumes(data: seq<Byte>, more: seq<Byte>)
    ensures Rest(Rest(data) + more) == Rest(data + more)
  {
    var whole := data[..|data| - |data| % 16];
    assert data + more == whole + (Rest(data) + more);
    RestDropsStripes(whole, Rest(data) + more);
  }

  lemma RestDropsStripes(whole: seq<Byte>, s: seq<Byte>)
    requires |whole| % 16 == 0
    ensures Rest(whole + s) == Rest(s)
  {
    SameRest(|whole|, |s|);
  }

  lemma SameRest(a: nat, b: nat)
    requires a % 16 == 0
    ensures (a + b) % 16 == b % 16
  {
    var p, q, r := a / 16, b / 16, b % 16;
    assert a + b == 16 * (p + q) + r;
  }

  // ----- the mixing steps are permutations

  function RoundInput(acc: U32, r: U32): U32 {
    DivPrime2(Sub(Rotr13(DivPrime1(r)), acc))
  }

  function RoundAcc(r: U32, input: U32): U32 {
    Sub(Rotr13(DivPrime1(r)), MulPrime2(input))
  }

  /** A round is undone in either argument: it is a permutation of each. */
  lemma RoundInverts(acc: U32, input: U32)
    ensures RoundInput(acc, Round(acc, input)) == input
    ensures RoundAcc(Round(acc, input), input) == acc
  {
    hide Add, Sub, MulPrime1, DivPrime1, MulPrime2, DivPrime2, Rotl13, Rotr13;
    MulDivPrime1(Rotl13(Add(acc, MulPrime2(input))));
    RotlRotr(Add(acc, MulPrime2(input)));
    AddSub(acc, MulPrime2(input));
    MulDivPrime2(input);
  }

  lemma RoundOnto(r: U32, acc: U32, input: U32)
    ensures Round(acc, RoundInput(acc, r)) == r
    ensures Round(RoundAcc(r, input), input) == r
  {
    hide Add, Sub, MulPrime1, DivPrime1, MulPrime2, DivPrime2, Rotl13, Rotr13;
    DivMulPrime1(r);
    RotlRotr(DivPrime1(r));
    DivMulPrime2(Sub(Rotr13(DivPrime1(r)), acc));
    SubAdd(Rotr13(DivPrime1(r)), acc);
    SubAdd(Rotr13(DivPrime1(r)), MulPrime2(input));
  }

  function Unavalanche(h: U32): U32 {
    Unfold15(DivPrime2(Unfold13(DivPrime3(Fold16(h)))))
  }

  /** The avalanche loses nothing: it is a permutation of the 32-bit words. */
  lemma AvalancheInverts(h: U32)
    ensures Unavalanche(Avalanche(h)) == h
    ensures Avalanche(Unavalanche(h)) == h
  {
    hide Fold15, Unfold15, Fold13, Unfold13, Fold16, MulPrime2, DivPrime2, MulPrime3, DivPrime3;
    Fold15Unfold15(h);
    MulDivPrime2(Fold15(h));
    Fold13Unfold13(MulPrime2(Fold15(h)));
    MulDivPrime3(Fold13(MulPrime2(Fold15(h))));
    Fold16Fold16(MulPrime3(Fold13(MulPrime2(Fold15(h)))));
    Fold16Fold16(h);
    DivMulPrime3(Fold16(h));
    Unfold13Fold13(DivPrime3(Fold16(h)));
    DivMulPrime2(Unfold13(DivPrime3(Fold16(h))));
    Unfold15Fold15(DivPrime2(Unfold13(DivPrime3(Fold16(h)))));
  }

  function Unmix(u: Unit, y: U32): U32 {
    match u
    case Four => Rotr17(DivPrime4(y))
    case One => Rotr11(DivPrime1(y))
  }

  lemma MixInverts(u: Unit, x: U32)
    ensures Unmix(u, Mix(u, x)) == x
  {
    hide MulPrime1, DivPrime1, MulPrime4, DivPrime4, Rotl17, Rotr17, Rotl11, Rotr11;
    RotlRotr(x);
    match u
    case Four =>
      MulDivPrime4(Rotl17(x));
    case One =>
      MulDivPrime1(Rotl11(x));
  }

  lemma KeyInjective(u: Unit, p: seq<Byte>, q: seq<Byte>)
    requires |p| == |q| == Width(u)
    requires Key(u, p) == Key(u, q)
    ensures p == q
  {
    hide Read32, MulPrime3, DivPrime3, MulPrime5, DivPrime5;
    match u
    case Four =>
      MulDivPrime3(Read32(p));
      MulDivPrime3(Read32(q));
      Read32Injective(p, q);
    case One =>
      MulDivPrime5(p[0] as U32);
      MulDivPrime5(q[0] as U32);
      WidenInjective(p[0], q[0]);
      assert p == [p[0]] && q == [q[0]];
  }

  lemma WidenInjective(x: Byte, y: Byte)
    requires x as U32 == y as U32
    ensures x == y
  {
  }

  /** Equal results of one step: the accumulators agree exactly when the units do. */
  lemma AbsorbCancels(u: Unit, h: U32, h': U32, p: seq<Byte>, p': seq<Byte>)
    requires |p| == |p'| == Width(u)
    requires Absorb(u, h, p) == Absorb(u, h', p')
    ensures h == h' <==> p == p'
  {
    hide Key, Mix, Unmix, Add, Sub;
    MixInverts(u, Add(h, Key(u, p)));
    MixInverts(u, Add(h', Key(u, p')));
    AddSub(h, Key(u, p));
    AddSub(h', Key(u, p'));
    if h == h' {
      KeyInjective(u, p, p');
    }
  }

  lemma {:induction false} TailCancels(h: U32, h': U32, t: seq<Byte>)
    requires Tail(h, t) == Tail(h', t)
    ensures h == h'
    decreases |t|
  {
    hide Absorb;
    if t != [] {
      var u := NextUnit(|t|);
      TailCancels(Absorb(u, h, t[..Width(u)]), Absorb(u, h', t[..Width(u)]), t[Width(u)..]);
      AbsorbCancels(u, h, h', t[..Width(u)], t[..Width(u)]);
    }
  }

  /** The tails agree except in exactly one of their units. */
  predicate OneUnitApart(t: seq<Byte>, t': seq<Byte>)
    requires |t| == |t'|
    decreases |t|
  {
    if t == [] then false
    else
      var w := Width(NextUnit(|t|));
      if t[..w] != t'[..w] then t[w..] == t'[w..] else OneUnitApart(t[w..], t'[w..])
  }

  lemma {:induction false} TailsDiffer(h: U32, t: seq<Byte>, t': seq<Byte>)
    requires |t| == |t'| && OneUnitApart(t, t')
    ensures Tail(h, t) != Tail(h, t')
    decreases |t|
  {
    hide Absorb;
    var u := NextUnit(|t|);
    var w := Width(u);
    if t[..w] == t'[..w] {
      TailsDiffer(Absorb(u, h, t[..w]), t[w..], t'[w..]);
    } else if Tail(h, t) == Tail(h, t') {
      TailCancels(Absorb(u, h, t[..w]), Absorb(u, h, t'[..w]), t[w..]);
      AbsorbCancels(u, h, h, t[..w], t'[..w]);
      assert false;
    }
  }

  /** The stripes look at whole stripes only. */
  lemma WholeStripes(v: Lanes, s: seq<Byte>)
    ensures Stripes(v, s) == Stripes(v, s[..|s| - |s| % 16])
  {
    hide Stripes;
    var whole := s[..|s| - |s| % 16];
    assert s == whole + Rest(s) && Rest(whole) == [] && Rest(whole) + Rest(s) == Rest(s);
    StripesResume(v, whole, Rest(s));
    FewBytes(Stripes(v, whole), Rest(s));
  }

  lemma SameStart(a: seq<Byte>, b: seq<Byte>, seed: U32) returns (h: U32)
    requires |a| == |b| && a[..|a| - |a| % 16] == b[..|a| - |a| % 16]
    ensures Hash(a, seed) == Avalanche(Tail(h, Rest(a))) && Hash(b, seed) == Avalanche(Tail(h, Rest(b)))
  {
    hide Add, Avalanche, Length32, Converge, InitLanes, Tail, Stripes;
    WholeStripes(InitLanes(seed), a);
    WholeStripes(InitLanes(seed), b);
    var acc := if |a| >= 16 then Converge(Stripes(InitLanes(seed), a)) else Add(seed, PRIME5);
    h := Add(acc, Length32(|a|));
  }

  /** Inputs of one length with the same whole stripes, one tail unit apart, never collide. */
  lemma NoTailCollision(a: seq<Byte>, b: seq<Byte>, seed: U32)
    requires |a| == |b|
    requires a[..|a| - |a| % 16] == b[..|a| - |a| % 16]
    requires OneUnitApart(Rest(a), Rest(b))
    ensures Hash(a, seed) != Hash(b, seed)
  {
    hide Add, Avalanche, Unavalanche, Tail, Hash, Rest, OneUnitApart;
    var h := SameStart(a, b, seed);
    TailsDiffer(h, Rest(a), Rest(b));
    AvalancheInverts(Tail(h, Rest(a)));
    AvalancheInverts(Tail(h, Rest(b)));
  }

  /** On inputs shorter than a stripe, different seeds give different hashes. */
  lemma SeedsNeverCollide(input: seq<Byte>, seed: U32, seed': U32)
    requires |input| < 16
    requires Hash(input, seed) == Hash(input, seed')
    ensures seed == seed'
  {
    hide Add, Sub, Avalanche, Unavalanche, Length32, Tail;
    var h, h' := Add(Add(seed, PRIME5), Length32(|input|)), Add(Add(seed', PRIME5), Length32(|input|));
    AvalancheInverts(Tail(h, input));
    AvalancheInverts(Tail(h', input));
    assert Rest(input) == input;
    TailCancels(h, h', input);
    AddSub(Add(seed, PRIME5), Length32(|input|));
    AddSub(Add(seed', PRIME5), Length32(|input|));
    AddSub(seed, PRIME5);
    AddSub(seed', PRIME5);
  }
}
