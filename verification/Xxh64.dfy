/** XXH64: the published description of the hash as functions, the one-shot and the streaming
    code as methods proved against it, and the invertibility of its tail. */
module Xxh64 {
  import opened Words64
  import opened Chunks

  const PRIME1: U64 := 11400714785074694791
  const PRIME2: U64 := 14029467366897019727
  const PRIME3: U64 := 1609587929392839161
  const PRIME4: U64 := 9650029242287828579
  const PRIME5: U64 := 2870177450012600261

  // size_t and U64 hold lengths modulo 2^64.
  const TWO64: nat := 0x1_0000_0000_0000_0000

  function Length64(n: nat): U64 { (n % TWO64) as U64 }

  function Round(acc: U64, input: U64): U64 {
    MulPrime1(Rotl31(Add(acc, MulPrime2(input))))
  }

  function MergeRound(acc: U64, val: U64): U64 {
    Add(MulPrime1(Xor(acc, Round(0, val))), PRIME4)
  }

  function Avalanche(h: U64): U64 {
    Fold32(MulPrime3(Fold29(MulPrime2(Fold33(h)))))
  }

  // ----- the algorithm description: lanes, stripes, tail

  datatype Lanes = Lanes(v1: U64, v2: U64, v3: U64, v4: U64)

  function InitLanes(seed: U64): Lanes {
    Lanes(Add(Add(seed, PRIME1), PRIME2), Add(seed, PRIME2), Add(seed, 0), Sub(seed, PRIME1))
  }

  function StripeRound(v: Lanes, stripe: seq<Byte>): Lanes
    requires |stripe| == 32
  {
    Lanes(Round(v.v1, Read64(stripe[0..8])), Round(v.v2, Read64(stripe[8..16])),
          Round(v.v3, Read64(stripe[16..24])), Round(v.v4, Read64(stripe[24..32])))
  }

  /** The lanes after every whole stripe of s. */
  function Stripes(v: Lanes, s: seq<Byte>): Lanes
    decreases |s|
  {
    if |s| < 32 then v else Stripes(StripeRound(v, s[..32]), s[32..])
  }

  /** The bytes after the last whole stripe. */
  function Rest(s: seq<Byte>): (r: seq<Byte>)
    ensures |r| == |s| % 32
  {
    s[|s| - |s| % 32..]
  }

  function Converge(v: Lanes): U64 {
    MergeRound(MergeRound(MergeRound(MergeRound(
      Add(Add(Add(Rotl1(v.v1), Rotl7(v.v2)), Rotl12(v.v3)), Rotl18(v.v4)), v.v1), v.v2), v.v3), v.v4)
  }

  datatype Unit = Eight | Four | One

  function Width(u: Unit): nat {
    match u case Eight => 8 case Four => 4 case One => 1
  }

  function Key(u: Unit, p: seq<Byte>): U64
    requires |p| == Width(u)
  {
    match u
    case Eight => Round(0, Read64(p))
    case Four => MulPrime1(Read32(p))
    case One => MulPrime5(p[0] as U64)
  }

  function Mix(u: Unit, x: U64): U64 {
    match u
    case Eight => Add(MulPrime1(Rotl27(x)), PRIME4)
    case Four => Add(MulPrime2(Rotl23(x)), PRIME3)
    case One => MulPrime1(Rotl11(x))
  }

  /** One unit of the tail absorbed into the accumulator. */
  function Absorb(u: Unit, h: U64, p: seq<Byte>): U64
    requires |p| == Width(u)
  {
    Mix(u, Xor(h, Key(u, p)))
  }

  /** The description takes the widest unit that still fits. */
  function NextUnit(n: nat): (u: Unit)
    requires n > 0
    ensures Width(u) <= n
  {
    if n >= 8 then Eight else if n >= 4 then Four else One
  }

  function Tail(h: U64, t: seq<Byte>): U64
    decreases |t|
  {
    if t == [] then h
    else
      var u := NextUnit(|t|);
      Tail(Absorb(u, h, t[..Width(u)]), t[Width(u)..])
  }

  function Hash(input: seq<Byte>, seed: U64): U64 {
    var acc := if |input| >= 32 then Converge(Stripes(InitLanes(seed), input)) else Add(seed, PRIME5);
    Avalanche(Tail(Add(acc, Length64(|input|)), Rest(input)))
  }

  // ----- finalize: a switch whose cases fall through

  datatype Row = Row(at: nat, units: seq<Unit>, leaves: bool)

  const ROWS: nat := 32

  /** The case labels in the order of the switch, with what each runs before the next label. */
  function RowAt(i: nat): Row
    requires i < ROWS
  {
    match i
    case 0 => Row(24, [Eight], false)
    case 1 => Row(16, [Eight], false)
    case 2 => Row(8, [Eight], true)
    case 3 => Row(28, [Eight], false)
    case 4 => Row(20, [Eight], false)
    case 5 => Row(12, [Eight], false)
    case 6 => Row(4, [Four], true)
    case 7 => Row(25, [Eight], false)
    case 8 => Row(17, [Eight], false)
    case 9 => Row(9, [Eight, One], true)
    case 10 => Row(29, [Eight], false)
    case 11 => Row(21, [Eight], false)
    case 12 => Row(13, [Eight], false)
    case 13 => Row(5, [Four, One], true)
    case 14 => Row(26, [Eight], false)
    case 15 => Row(18, [Eight], false)
    case 16 => Row(10, [Eight, One, One], true)
    case 17 => Row(30, [Eight], false)
    case 18 => Row(22, [Eight], false)
    case 19 => Row(14, [Eight], false)
    case 20 => Row(6, [Four, One, One], true)
    case 21 => Row(27, [Eight], false)
    case 22 => Row(19, [Eight], false)
    case 23 => Row(11, [Eight, One, One, One], true)
    case 24 => Row(31, [Eight], false)
    case 25 => Row(23, [Eight], false)
    case 26 => Row(15, [Eight], false)
    case 27 => Row(7, [Four], false)
    case 28 => Row(3, [One], false)
    case 29 => Row(2, [One], false)
    case 30 => Row(1, [One], false)
    case _ => Row(0, [], true)
  }

  /** Where the switch jumps to. */
  function Entry(n: nat, from: nat): (i: nat)
    requires from <= ROWS
    ensures from <= i <= ROWS
    ensures i < ROWS ==> RowAt(i).at == n
    ensures forall j :: from <= j < i ==> RowAt(j).at != n
    decreases ROWS - from
  {
    if from == ROWS || RowAt(from).at == n then from else Entry(n, from + 1)
  }

  /** Taking units[k..] greedily leads from n bytes left to m bytes left. */
  predicate Takes(units: seq<Unit>, k: nat, n: nat, m: nat)
    requires k <= |units|
    decreases |units| - k
  {
    if k == |units| then n == m
    else n > 0 && units[k] == NextUnit(n) && Takes(units, k + 1, n - Width(units[k]), m)
  }

  /** Row by row, the switch takes greedily down to the next label, or down to nothing. */
  lemma RowTakes(i: nat)
    requires i < ROWS
    ensures Takes(RowAt(i).units, 0, RowAt(i).at,
                  if RowAt(i).leaves || i + 1 == ROWS then 0 else RowAt(i + 1).at)
  {
    var units, n := RowAt(i).units, RowAt(i).at;
    if |units| > 3 {
      assert Takes(units, 3, 1, 0);
    }
    if |units| > 2 {
      assert Takes(units, 2, |units| - 2, 0);
    }
    if |units| > 1 {
      assert Takes(units, 1, |units| - 1, 0);
    }
  }

  /** Every remainder has its label: the assert(0) after the switch is dead. */
  lemma EveryLabelPresent(n: nat)
    requires n < 32
    ensures Entry(n, 0) < ROWS
  {
    hide Entry;
    var row := match n
      case 0 => 31 case 1 => 30 case 2 => 29 case 3 => 28 case 4 => 6 case 5 => 13 case 6 => 20 case 7 => 27
      case 8 => 2 case 9 => 9 case 10 => 16 case 11 => 23 case 12 => 5 case 13 => 12 case 14 => 19 case 15 => 26
      case 16 => 1 case 17 => 8 case 18 => 15 case 19 => 22 case 20 => 4 case 21 => 11 case 22 => 18 case 23 => 25
      case 24 => 0 case 25 => 7 case 26 => 14 case 27 => 21 case 28 => 3 case 29 => 10 case 30 => 17 case _ => 24;
    assert RowAt(row).at == n;
  }

  /** XXH64_finalize: enter the switch at len & 31 and fall through to a return. */
  method Finalize(h0: U64, ptr: seq<Byte>, len: nat) returns (h: U64)
    requires len % 32 <= |ptr|
    ensures h == Avalanche(Tail(h0, ptr[..len % 32]))
  {
    hide Avalanche, Absorb, RowAt, Tail;
    h := h0;
    var p, end := 0, len % 32;
    EveryLabelPresent(end);
    var i := Entry(end, 0);
    ghost var goal := Tail(h0, ptr[..end]);
    while true
      invariant i < ROWS && 0 <= p && end - p == RowAt(i).at
      invariant Tail(h, ptr[p..end]) == goal
      decreases ROWS - i
    {
      RowTakes(i);
      ghost var next := if RowAt(i).leaves || i + 1 == ROWS then 0 else RowAt(i + 1).at;
      var units := RowAt(i).units;
      for k := 0 to |units|
        invariant 0 <= p <= end && Takes(units, k, end - p, next)
        invariant Tail(h, ptr[p..end]) == goal
      {
        var w := Width(units[k]);
        TailAt(h, ptr, p, end);
        h := Absorb(units[k], h, ptr[p..p + w]);
        p := p + w;
      }
      if RowAt(i).leaves || i + 1 == ROWS {
        break;
      }
      i := i + 1;
    }
    TailOfNothing(h, ptr[p..end]);
    h := Avalanche(h);
  }

  lemma TailAt(h: U64, s: seq<Byte>, p: nat, end: nat)
    requires p < end <= |s|
    ensures var u := NextUnit(end - p);
            Tail(h, s[p..end]) == Tail(Absorb(u, h, s[p..p + Width(u)]), s[p + Width(u)..end])
  {
    hide Absorb;
    var w := Width(NextUnit(end - p));
    assert s[p..end][..w] == s[p..p + w] && s[p..end][w..] == s[p + w..end];
  }

  lemma TailOfNothing(h: U64, t: seq<Byte>)
    requires t == []
    ensures Tail(h, t) == h
  {
  }

  /** XXH64: the whole input at once. */
  method OneShot(input: seq<Byte>, seed: U64) returns (h: U64)
    ensures h == Hash(input, seed)
  {
    hide Add, Sub, Length64, Round, Avalanche, Converge, Tail, Read64, Stripes, Rest;
    var len := |input|;
    var p := 0;
    if len >= 32 {
      var limit := len - 32;
      var v1 := Add(Add(seed, PRIME1), PRIME2);
      var v2 := Add(seed, PRIME2);
      var v3 := Add(seed, 0);
      var v4 := Sub(seed, PRIME1);
      // The guard holds on entry, so this is the do-while of the source.
      while p <= limit
        invariant p <= len && p % 32 == 0
        invariant Stripes(Lanes(v1, v2, v3, v4), input[p..]) == Stripes(InitLanes(seed), input)
      {
        StripeAt(Lanes(v1, v2, v3, v4), input, p);
        v1 := Round(v1, Read64(input[p..p + 8]));
        p := p + 8;
        v2 := Round(v2, Read64(input[p..p + 8]));
        p := p + 8;
        v3 := Round(v3, Read64(input[p..p + 8]));
        p := p + 8;
        v4 := Round(v4, Read64(input[p..p + 8]));
        p := p + 8;
      }
      StripesOfRest(Lanes(v1, v2, v3, v4), input[p..]);
      h := Converge(Lanes(v1, v2, v3, v4));
    } else {
      h := Add(seed, PRIME5);
    }
    h := Add(h, Length64(len));
    RestAt(input, 0, p);
    assert input[0..] == input && input[p..][..len % 32] == input[p..];
    h := Finalize(h, input[p..], len);
  }

  lemma StripesOfRest(v: Lanes, s: seq<Byte>)
    requires |s| < 32
    ensures Stripes(v, s) == v
  {
  }

  /** One turn of the lane loop takes one stripe. */
  lemma StripeAt(v: Lanes, s: seq<Byte>, p: nat)
    requires p + 32 <= |s|
    ensures Stripes(v, s[p..]) ==
            Stripes(Lanes(Round(v.v1, Read64(s[p..p + 8])), Round(v.v2, Read64(s[p + 8..p + 16])),
                          Round(v.v3, Read64(s[p + 16..p + 24])), Round(v.v4, Read64(s[p + 24..p + 32]))),
                    s[p + 32..])
  {
    hide Round, Read64;
    var stripe := s[p..][..32];
    assert s[p..][32..] == s[p + 32..];
    assert stripe[0..8] == s[p..p + 8] && stripe[8..16] == s[p + 8..p + 16];
    assert stripe[16..24] == s[p + 16..p + 24] && stripe[24..32] == s[p + 24..p + 32];
  }

  // ----- streaming

  /** The lanes ignore an incomplete last stripe, and hashing can resume from there. */
  lemma {:induction false} StripesResume(v: Lanes, data: seq<Byte>, more: seq<Byte>)
    ensures Stripes(v, data + more) == Stripes(Stripes(v, data), Rest(data) + more)
    decreases |data|
  {
    hide StripeRound, Stripes;
    if |data| < 32 {
      FewBytes(v, data);
      assert Rest(data) == data;
    } else {
      StripesResume(StripeRound(v, data[..32]), data[32..], more);
      assert (data + more)[..32] == data[..32] && (data + more)[32..] == data[32..] + more;
      OneStripe(v, data);
      OneStripe(v, data + more);
      assert Rest(data[32..]) == Rest(data);
    }
  }

  lemma FewBytes(v: Lanes, data: seq<Byte>)
    requires |data| < 32
    ensures Stripes(v, data) == v
  {
  }

  lemma OneStripe(v: Lanes, data: seq<Byte>)
    requires |data| >= 32
    ensures Stripes(v, data) == Stripes(StripeRound(v, data[..32]), data[32..])
  {
    hide StripeRound;
  }

  lemma RestAt(s: seq<Byte>, p0: nat, p: nat)
    requires p0 <= p <= |s| && (p - p0) % 32 == 0 && |s| - p < 32
    ensures s[p..] == Rest(s[p0..])
  {
  }

  /** XXH64_state_t. */
  class State {
    var totalLen: nat
    var v1: U64
    var v2: U64
    var v3: U64
    var v4: U64
    const mem: array<Byte>
    var memsize: nat

    function V(): Lanes
      reads this
    {
      Lanes(v1, v2, v3, v4)
    }

    ghost predicate Valid()
      reads this, mem
    {
      mem.Length == 32 && memsize < 32
    }

    /** The state after hashing exactly `data` with `seed`. */
    ghost predicate Holds(data: seq<Byte>, seed: U64)
      reads this, mem
    {
      && Valid()
      && totalLen == |data| % TWO64
      && mem[..memsize] == Rest(data)
      && V() == Stripes(InitLanes(seed), data)
    }

    constructor ()
      ensures Valid() && fresh(mem)
    {
      totalLen, v1, v2, v3, v4, memsize := 0, 0, 0, 0, 0, 0;
      mem := new Byte[32];
    }

    /** XXH64_reset. */
    method Reset(seed: U64) returns (e: ErrorCode)
      requires Valid()
      modifies this, mem
      ensures e == OK && Holds([], seed)
    {
      hide Add, Sub, Stripes, Rest;
      StripesOfRest(InitLanes(seed), []);
      RestOfShort([]);
      totalLen, memsize := 0, 0;
      forall i | 0 <= i < mem.Length { mem[i] := 0; }
      v1 := Add(Add(seed, PRIME1), PRIME2);
      v2 := Add(seed, PRIME2);
      v3 := Add(seed, 0);
      v4 := Sub(seed, PRIME1);
      e := OK;
    }

    /** memcpy(mem + at, src, |src|). */
    method CopyIn(at: nat, src: seq<Byte>)
      requires Valid() && at + |src| <= 32
      modifies mem
      ensures mem[..] == old(mem[..at]) + src + old(mem[at + |src|..])
    {
      forall i | 0 <= i < |src| { mem[at + i] := src[i]; }
    }

    /** The lane loop of XXH64_update: every whole stripe of input[p..]. */
    method ConsumeStripes(input: seq<Byte>, p0: nat) returns (p: nat)
      requires p0 <= |input|
      modifies this`v1, this`v2, this`v3, this`v4
      ensures p0 <= p <= |input| && input[p..] == Rest(input[p0..])
      ensures V() == Stripes(old(V()), input[p0..])
    {
      hide Round, Read64, Stripes, Rest;
      p := p0;
      var bEnd := |input|;
      ghost var goal := Stripes(V(), input[p0..]);
      if p + 32 <= bEnd {
        var limit := bEnd - 32;
        var w1, w2, w3, w4 := v1, v2, v3, v4;
        while p <= limit
          invariant p <= bEnd && (p - p0) % 32 == 0
          invariant Stripes(Lanes(w1, w2, w3, w4), input[p..]) == goal
        {
          StripeAt(Lanes(w1, w2, w3, w4), input, p);
          w1 := Round(w1, Read64(input[p..p + 8]));
          p := p + 8;
          w2 := Round(w2, Read64(input[p..p + 8]));
          p := p + 8;
          w3 := Round(w3, Read64(input[p..p + 8]));
          p := p + 8;
          w4 := Round(w4, Read64(input[p..p + 8]));
          p := p + 8;
        }
        v1, v2, v3, v4 := w1, w2, w3, w4;
      }
      StripesOfRest(V(), input[p..]);
      RestAt(input, p0, p);
    }

    /** The first stripe, completed in mem. */
    method ConsumeBuffer()
      requires Valid()
      modifies this`v1, this`v2, this`v3, this`v4
      ensures V() == StripeRound(old(V()), mem[..])
    {
      hide Round, Read64;
      v1 := Round(v1, Read64(mem[0..8]));
      v2 := Round(v2, Read64(mem[8..16]));
      v3 := Round(v3, Read64(mem[16..24]));
      v4 := Round(v4, Read64(mem[24..32]));
      var s := mem[..];
      assert s[0..8] == mem[0..8] && s[8..16] == mem[8..16] && s[16..24] == mem[16..24] && s[24..32] == mem[24..32];
    }

    /** The part of XXH64_update after the length bookkeeping: lanes and buffer. */
    method Feed(input: seq<Byte>)
      requires Valid()
      modifies this`v1, this`v2, this`v3, this`v4, this`memsize, mem
      ensures Valid()
      ensures V() == Stripes(old(V()), old(mem[..memsize]) + input)
      ensures mem[..memsize] == Rest(old(mem[..memsize]) + input)
    {
      hide Stripes, StripeRound, Rest;
      var len := |input|;
      ghost var was, lanes := mem[..memsize], V();
      if memsize + len < 32 {
        CopyIn(memsize, input);
        memsize := memsize + len;
        assert mem[..memsize] == was + input;
        StripesOfRest(lanes, was + input);
        RestOfShort(was + input);
        return;
      }
      var p := 0;
      if memsize != 0 {
        CopyIn(memsize, input[..32 - memsize]);
        assert mem[..] == was + input[..32 - memsize];
        ConsumeBuffer();
        p := 32 - memsize;
        memsize := 0;
        FirstStripe(lanes, was, input, p);
      } else {
        assert was == [] && input[0..] == was + input;
      }
      RestIsShort(input[p..]);
      p := ConsumeStripes(input, p);
      if p < len {
        CopyIn(0, input[p..]);
        memsize := len - p;
      }
      assert mem[..memsize] == input[p..];
    }

    /** XXH64_update. */
    method Update(input: Input, ghost data: seq<Byte>, ghost seed: U64) returns (e: ErrorCode)
      requires Valid()
      modifies this, mem
      ensures Valid()
      ensures e == if input.Null? then ERROR else OK
      ensures input.Null? ==> unchanged(this) && unchanged(mem)
      ensures input.Bytes? && old(Holds(data, seed)) ==> Holds(data + input.data, seed)
    {
      hide Stripes, Rest, InitLanes;
      if input.Null? {
        return ERROR;
      }
      var len := |input.data|;
      ghost var was, lanes := mem[..memsize], V();
      totalLen := (totalLen + len) % TWO64;
      Feed(input.data);
      if old(Holds(data, seed)) {
        Resumed(data, input.data, seed, lanes, was);
      }
      e := OK;
    }

    /** XXH64_digest. Past 2^64 bytes, which no size_t length reaches, total_len wraps. */
    method Digest(ghost data: seq<Byte>, ghost seed: U64) returns (h: U64)
      requires Valid() && Holds(data, seed)
      ensures |data| < 32 || |data| % TWO64 >= 32 ==> h == Hash(data, seed)
    {
      hide Add, Length64, Avalanche, Converge, Tail, Stripes, InitLanes, Rest, Hash;
      if totalLen >= 32 {
        h := Converge(V());
      } else {
        h := Add(v3, PRIME5);
      }
      h := Add(h, Length64(totalLen));
      RestLength(data, totalLen);
      assert mem[..][..memsize] == mem[..memsize];
      if |data| < 32 || totalLen >= 32 {
        HashOfState(data, seed, V(), totalLen);
      }
      h := Finalize(h, mem[..], totalLen);
    }
  }

  lemma RestLength(data: seq<Byte>, total: nat)
    requires total == |data| % TWO64
    ensures |Rest(data)| == total % 32
  {
    hide Rest;
    var q := |data| / 0x1_0000_0000_0000_0000;
    assert |data| == 32 * (q * 0x800_0000_0000_0000) + total;
  }

  /** The hash, from what the streaming state keeps of the data. */
  lemma HashOfState(data: seq<Byte>, seed: U64, lanes: Lanes, total: nat)
    requires lanes == Stripes(InitLanes(seed), data) && total == |data| % TWO64
    requires |data| < 32 || total >= 32
    ensures var acc := if total >= 32 then Converge(lanes) else Add(lanes.v3, PRIME5);
            Hash(data, seed) == Avalanche(Tail(Add(acc, Length64(total)), Rest(data)))
  {
    hide Add, Length64, Avalanche, Converge, Tail, Stripes, InitLanes, Rest;
    SameLength(total, |data|);
    if |data| < 32 {
      SeedInLane3(seed, data);
    }
  }

  lemma SameLength(m: nat, n: nat)
    requires m == n % TWO64
    ensures Length64(m) == Length64(n)
  {
  }

  lemma SeedInLane3(seed: U64, data: seq<Byte>)
    requires |data| < 32
    ensures Stripes(InitLanes(seed), data).v3 == seed
  {
    hide StripeRound;
  }

  /** Reset, one update per chunk, digest: the one-shot hash of the concatenation, however the
      input was split. */
  method Stream(chunks: seq<seq<Byte>>, seed: U64) returns (h: U64)
    requires |Concat(chunks)| < TWO64
    ensures h == Hash(Concat(chunks), seed)
  {
    hide Hash, Stripes, InitLanes, Rest;
    var state := new State();
    var e := state.Reset(seed);
    for i := 0 to |chunks|
      invariant fresh(state) && fresh(state.mem)
      invariant state.Holds(Concat(chunks[..i]), seed)
    {
      e := state.Update(Bytes(chunks[i]), Concat(chunks[..i]), seed);
      assert chunks[..i + 1][..i] == chunks[..i];
    }
    assert chunks[..|chunks|] == chunks;
    h := state.Digest(Concat(chunks), seed);
  }

  lemma RestIsShort(s: seq<Byte>)
    ensures |Rest(s)| < 32
  {
  }

  lemma RestOfShort(s: seq<Byte>)
    requires |s| < 32
    ensures Rest(s) == s
  {
  }

  /** Completing the buffered stripe with the first bytes of the input. */
  lemma FirstStripe(v: Lanes, buffered: seq<Byte>, input: seq<Byte>, p: nat)
    requires |buffered| + p == 32 && p <= |input|
    ensures Stripes(StripeRound(v, buffered + input[..p]), input[p..]) == Stripes(v, buffered + input)
    ensures Rest(input[p..]) == Rest(buffered + input)
  {
    hide StripeRound, Stripes;
    var s := buffered + input;
    assert s[..32] == buffered + input[..p] && s[32..] == input[p..];
    OneStripe(v, s);
  }

  /** What one update owes: lanes and buffer of the longer input. */
  lemma Resumed(data: seq<Byte>, more: seq<Byte>, seed: U64, lanes: Lanes, buffered: seq<Byte>)
    requires lanes == Stripes(InitLanes(seed), data) && buffered == Rest(data)
    ensures Stripes(lanes, buffered + more) == Stripes(InitLanes(seed), data + more)
    ensures Rest(buffered + more) == Rest(data + more)
    ensures (|data| % TWO64 + |more|) % TWO64 == |data + more| % TWO64
  {
    hide Stripes, InitLanes, Rest;
    StripesResume(InitLanes(seed), data, more);
    RestResumes(data, more);
    LengthAdds(|data|, |more|);
  }

  lemma LengthAdds(n: nat, k: nat)
    ensures (n % TWO64 + k) % TWO64 == (n + k) % TWO64
  {
    var q, r := n / 0x1_0000_0000_0000_0000, n % 0x1_0000_0000_0000_0000;
    assert n + k == q * 0x1_0000_0000_0000_0000 + (r + k);
  }

  lemma RestResumes(data: seq<Byte>, more: seq<Byte>)
    ensures Rest(Rest(data) + more) == Rest(data + more)
  {
    var whole := data[..|data| - |data| % 32];
    assert data + more == whole + (Rest(data) + more);
    RestDropsStripes(whole, Rest(data) + more);
  }

  lemma RestDropsStripes(whole: seq<Byte>, s: seq<Byte>)
    requires |whole| % 32 == 0
    ensures Rest(whole + s) == Rest(s)
  {
    SameRest(|whole|, |s|);
  }

  lemma SameRest(a: nat, b: nat)
    requires a % 32 == 0
    ensures (a + b) % 32 == b % 32
  {
    var p, q, r := a / 32, b / 32, b % 32;
    assert a + b == 32 * (p + q) + r;
  }

  // ----- the mixing steps are permutations

  function RoundInput(acc: U64, r: U64): U64 {
    DivPrime2(Sub(Rotr31(DivPrime1(r)), acc))
  }

  function RoundAcc(r: U64, input: U64): U64 {
    Sub(Rotr31(DivPrime1(r)), MulPrime2(input))
  }

  /** A round is undone in either argument: it is a permutation of each. */
  lemma RoundInverts(acc: U64, input: U64)
    ensures RoundInput(acc, Round(acc, input)) == input
    ensures RoundAcc(Round(acc, input), input) == acc
  {
    hide Add, Sub, MulPrime1, DivPrime1, MulPrime2, DivPrime2, Rotl31, Rotr31;
    MulDivPrime1(Rotl31(Add(acc, MulPrime2(input))));
    RotlRotr(Add(acc, MulPrime2(input)));
    AddSub(acc, MulPrime2(input));
    MulDivPrime2(input);
  }

  lemma RoundOnto(r: U64, acc: U64, input: U64)
    ensures Round(acc, RoundInput(acc, r)) == r
    ensures Round(RoundAcc(r, input), input) == r
  {
    hide Add, Sub, MulPrime1, DivPrime1, MulPrime2, DivPrime2, Rotl31, Rotr31;
    DivMulPrime1(r);
    RotlRotr(DivPrime1(r));
    DivMulPrime2(Sub(Rotr31(DivPrime1(r)), acc));
    SubAdd(Rotr31(DivPrime1(r)), acc);
    SubAdd(Rotr31(DivPrime1(r)), MulPrime2(input));
    AddCommutes(acc, Sub(Rotr31(DivPrime1(r)), acc));
  }

  function Unavalanche(h: U64): U64 {
    Fold33(DivPrime2(Unfold29(DivPrime3(Fold32(h)))))
  }

  /** The avalanche loses nothing: it is a permutation of the 64-bit words. */
  lemma AvalancheInverts(h: U64)
    ensures Unavalanche(Avalanche(h)) == h
    ensures Avalanche(Unavalanche(h)) == h
  {
    hide Fold33, Fold32, Fold29, Unfold29, MulPrime2, DivPrime2, MulPrime3, DivPrime3;
    FoldFold33(h);
    MulDivPrime2(Fold33(h));
    FoldUnfold29(MulPrime2(Fold33(h)));
    MulDivPrime3(Fold29(MulPrime2(Fold33(h))));
    FoldFold32(MulPrime3(Fold29(MulPrime2(Fold33(h)))));
    FoldFold32(h);
    DivMulPrime3(Fold32(h));
    UnfoldFold29(DivPrime3(Fold32(h)));
    DivMulPrime2(Unfold29(DivPrime3(Fold32(h))));
    FoldFold33(DivPrime2(Unfold29(DivPrime3(Fold32(h)))));
  }

  function Unmix(u: Unit, y: U64): U64 {
    match u
    case Eight => Rotr27(DivPrime1(Sub(y, PRIME4)))
    case Four => Rotr23(DivPrime2(Sub(y, PRIME3)))
    case One => Rotr11(DivPrime1(y))
  }

  lemma MixInverts(u: Unit, x: U64)
    ensures Unmix(u, Mix(u, x)) == x
  {
    hide Add, Sub, MulPrime1, DivPrime1, MulPrime2, DivPrime2;
    hide Rotl27, Rotr27, Rotl23, Rotr23, Rotl11, Rotr11;
    RotlRotr(x);
    match u
    case Eight =>
      AddSub(MulPrime1(Rotl27(x)), PRIME4);
      MulDivPrime1(Rotl27(x));
    case Four =>
      AddSub(MulPrime2(Rotl23(x)), PRIME3);
      MulDivPrime2(Rotl23(x));
    case One =>
      MulDivPrime1(Rotl11(x));
  }

  lemma KeyInjective(u: Unit, p: seq<Byte>, q: seq<Byte>)
    requires |p| == |q| == Width(u)
    requires Key(u, p) == Key(u, q)
    ensures p == q
  {
    hide Round, RoundInput, RoundAcc, Read64, Read32;
    hide MulPrime1, DivPrime1, MulPrime5, DivPrime5;
    match u
    case Eight =>
      RoundInverts(0, Read64(p));
      RoundInverts(0, Read64(q));
      Read64Injective(p, q);
    case Four =>
      MulDivPrime1(Read32(p));
      MulDivPrime1(Read32(q));
      Read32Injective(p, q);
    case One =>
      MulDivPrime5(p[0] as U64);
      MulDivPrime5(q[0] as U64);
      WidenInjective(p[0], q[0]);
      assert p == [p[0]] && q == [q[0]];
  }

  lemma WidenInjective(x: Byte, y: Byte)
    requires x as U64 == y as U64
    ensures x == y
  {
  }

  lemma AddCommutes(x: U64, y: U64)
    ensures Add(x, y) == Add(y, x)
  {
    assert Add(x, y) == x + y;
    assert Add(y, x) == y + x;
  }

  /** Equal results of one step: the accumulators agree exactly when the units do. */
  lemma AbsorbCancels(u: Unit, h: U64, h': U64, p: seq<Byte>, p': seq<Byte>)
    requires |p| == |p'| == Width(u)
    requires Absorb(u, h, p) == Absorb(u, h', p')
    ensures h == h' <==> p == p'
  {
    hide Key, Mix, Unmix, Xor;
    MixInverts(u, Xor(h, Key(u, p)));
    MixInverts(u, Xor(h', Key(u, p')));
    XorXor(h, Key(u, p));
    XorXor(h', Key(u, p'));
    if h == h' {
      KeyInjective(u, p, p');
    }
  }

  lemma {:induction false} TailCancels(h: U64, h': U64, t: seq<Byte>)
    requires Tail(h, t) == Tail(h', t)
    ensures h == h'
    decreases |t|
  {
    hide Absorb;
    if t != [] {
      var u := NextUnit(|t|);
      TailCancels(Absorb(u, h, t[..Width(u)]), Absorb(u, h', t[..Width(u)]), t[Width(u)..]);
      AbsorbCancels(u, h, h', t[..Width(u)], t[..Width(u)]);
    }
  }

  /** The tails agree except in exactly one of their units. */
  predicate OneUnitApart(t: seq<Byte>, t': seq<Byte>)
    requires |t| == |t'|
    decreases |t|
  {
    if t == [] then false
    else
      var w := Width(NextUnit(|t|));
      if t[..w] != t'[..w] then t[w..] == t'[w..] else OneUnitApart(t[w..], t'[w..])
  }

  lemma {:induction false} TailsDiffer(h: U64, t: seq<Byte>, t': seq<Byte>)
    requires |t| == |t'| && OneUnitApart(t, t')
    ensures Tail(h, t) != Tail(h, t')
    decreases |t|
  {
    hide Absorb;
    var u := NextUnit(|t|);
    var w := Width(u);
    if t[..w] == t'[..w] {
      TailsDiffer(Absorb(u, h, t[..w]), t[w..], t'[w..]);
    } else if Tail(h, t) == Tail(h, t') {
      TailCancels(Absorb(u, h, t[..w]), Absorb(u, h, t'[..w]), t[w..]);
      AbsorbCancels(u, h, h, t[..w], t'[..w]);
      assert false;
    }
  }

  /** Inputs of one length with the same whole stripes, one tail unit apart, never collide. */
  lemma NoTailCollision(a: seq<Byte>, b: seq<Byte>, seed: U64)
    requires |a| == |b|
    requires a[..|a| - |a| % 32] == b[..|a| - |a| % 32]
    requires OneUnitApart(Rest(a), Rest(b))
    ensures Hash(a, seed) != Hash(b, seed)
  {
    hide Add, Avalanche, Unavalanche, Tail, Hash, Rest, OneUnitApart;
    var h := SameStart(a, b, seed);
    TailsDiffer(h, Rest(a), Rest(b));
    AvalancheInverts(Tail(h, Rest(a)));
    AvalancheInverts(Tail(h, Rest(b)));
  }

  /** With the same length and the same whole stripes, the tails start from one accumulator. */
  lemma SameStart(a: seq<Byte>, b: seq<Byte>, seed: U64) returns (h: U64)
    requires |a| == |b| && a[..|a| - |a| % 32] == b[..|a| - |a| % 32]
    ensures Hash(a, seed) == Avalanche(Tail(h, Rest(a))) && Hash(b, seed) == Avalanche(Tail(h, Rest(b)))
  {
    hide Add, Avalanche, Length64, Converge, InitLanes, Tail, Stripes;
    WholeStripes(InitLanes(seed), a);
    WholeStripes(InitLanes(seed), b);
    var acc := if |a| >= 32 then Converge(Stripes(InitLanes(seed), a)) else Add(seed, PRIME5);
    h := Add(acc, Length64(|a|));
  }

  /** Only the whole stripes reach the lanes. */
  lemma WholeStripes(v: Lanes, s: seq<Byte>)
    ensures Stripes(v, s) == Stripes(v, s[..|s| - |s| % 32])
  {
    hide StripeRound;
    var whole := s[..|s| - |s| % 32];
    assert s == whole + Rest(s) && Rest(whole) + Rest(s) == Rest(s);
    StripesResume(v, whole, Rest(s));
  }

  /** On inputs shorter than a stripe, different seeds give different hashes. */
  lemma SeedsNeverCollide(input: seq<Byte>, seed: U64, seed': U64)
    requires |input| < 32
    requires Hash(input, seed) == Hash(input, seed')
    ensures seed == seed'
  {
    hide Add, Sub, Avalanche, Unavalanche, Length64, Tail;
    var h, h' := Add(Add(seed, PRIME5), Length64(|input|)), Add(Add(seed', PRIME5), Length64(|input|));
    AvalancheInverts(Tail(h, input));
    AvalancheInverts(Tail(h', input));
    assert Rest(input) == input;
    TailCancels(h, h', input);
    AddSub(Add(seed, PRIME5), Length64(|input|));
    AddSub(Add(seed', PRIME5), Length64(|input|));
    AddSub(seed, PRIME5);
    AddSub(seed', PRIME5);
  }
}
