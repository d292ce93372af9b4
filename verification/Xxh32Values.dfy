/** Published values of XXH32, evaluated step by step. */
module Xxh32Values {
  import opened Chunks
  import opened Words32
  import opened Xxh32

  const ZEROS: seq<Byte> := [0x00, 0x00, 0x00, 0x00]

  /** One stripe of four words, and what follows. */
  function Stripe(a: seq<Byte>, b: seq<Byte>, c: seq<Byte>, d: seq<Byte>, rest: seq<Byte>): seq<Byte> {
    a + b + c + d + rest
  }

  const ISHMAEL_TAIL: seq<Byte> :=
    [0x6c, 0x6f, 0x6e, 0x67] + ([0x20, 0x70, 0x72, 0x65] + ([0x63, 0x69, 0x73, 0x65] + ([0x6c] + ([0x79]
    + [0x2d]))))

  /** "Call me Ishmael. Some years ago--never mind how long precisely-" */
  const ISHMAEL: seq<Byte> :=
    Stripe([0x43, 0x61, 0x6c, 0x6c], [0x20, 0x6d, 0x65, 0x20], [0x49, 0x73, 0x68, 0x6d], [0x61, 0x65, 0x6c, 0x2e],
    Stripe([0x20, 0x53, 0x6f, 0x6d], [0x65, 0x20, 0x79, 0x65], [0x61, 0x72, 0x73, 0x20], [0x61, 0x67, 0x6f, 0x2d],
    Stripe([0x2d, 0x6e, 0x65, 0x76], [0x65, 0x72, 0x20, 0x6d], [0x69, 0x6e, 0x64, 0x20], [0x68, 0x6f, 0x77, 0x20],
    ISHMAEL_TAIL)))

  const SANITY_TAIL: seq<Byte> :=
    ZEROS + [0x00]

  /** The 101 bytes of the sanity check of xxHash: 30 of them by a rule, the rest zero. */
  const SANITY: seq<Byte> :=
    Stripe([0x9e, 0xff, 0x1f, 0x4b], [0x5e, 0x53, 0x2f, 0xdd], [0xb5, 0x54, 0x4d, 0x2a], [0x95, 0x2b, 0x57, 0xae],
    Stripe([0x5d, 0xba, 0x74, 0xe9], [0xd3, 0xa6, 0x4c, 0x98], [0x30, 0x60, 0xc0, 0x80], ZEROS,
    Stripe(ZEROS, ZEROS, ZEROS, ZEROS,
    Stripe(ZEROS, ZEROS, ZEROS, ZEROS,
    Stripe(ZEROS, ZEROS, ZEROS, ZEROS,
    Stripe(ZEROS, ZEROS, ZEROS, ZEROS,
    SANITY_TAIL))))))

  /** The first 14 of them. */
  const SHORT: seq<Byte> :=
    [0x9e, 0xff, 0x1f, 0x4b] + ([0x5e, 0x53, 0x2f, 0xdd] + ([0xb5, 0x54, 0x4d, 0x2a] + ([0x95] + [0x2b])))

  lemma NextStripe(v: Lanes, a: seq<Byte>, b: seq<Byte>, c: seq<Byte>, d: seq<Byte>, rest: seq<Byte>, w: Lanes)
    requires |a| == |b| == |c| == |d| == 4
    requires w.v1 == Round(v.v1, Read32(a)) && w.v2 == Round(v.v2, Read32(b))
    requires w.v3 == Round(v.v3, Read32(c)) && w.v4 == Round(v.v4, Read32(d))
    ensures Stripes(v, Stripe(a, b, c, d, rest)) == Stripes(w, rest)
    ensures Rest(Stripe(a, b, c, d, rest)) == Rest(rest)
  {
    hide Round, Read32;
    var s := Stripe(a, b, c, d, rest);
    assert s[..16][0..4] == a && s[..16][4..8] == b;
    assert s[..16][8..12] == c && s[..16][12..16] == d;
    assert s[16..] == rest;
  }

  lemma NoStripe(v: Lanes, rest: seq<Byte>)
    requires |rest| < 16
    ensures Stripes(v, rest) == v && Rest(rest) == rest
  {
  }

  lemma NextOfTail(u: Unit, h: U32, a: seq<Byte>, rest: seq<Byte>, k: U32, h': U32)
    requires |a| == Width(u) && u == NextUnit(|a| + |rest|) && Key(u, a) == k && Mix(u, Add(h, k)) == h'
    ensures Tail(h, a + rest) == Tail(h', rest)
  {
    hide Key, Mix, Add;
    assert (a + rest)[..|a|] == a && (a + rest)[|a|..] == rest;
  }

  lemma LastOfTail(u: Unit, h: U32, a: seq<Byte>, k: U32, h': U32)
    requires |a| == Width(u) && u == NextUnit(|a|) && Key(u, a) == k && Mix(u, Add(h, k)) == h'
    ensures Tail(h, a) == h'
  {
    hide Key, Mix, Add;
    assert a[..|a|] == a && a[|a|..] == [];
  }

  lemma IshmaelLanes()
    ensures |ISHMAEL| == 63 && Rest(ISHMAEL) == ISHMAEL_TAIL
    ensures Stripes(InitLanes(0x0), ISHMAEL) ==
            Lanes(0x6e1706b4, 0x59567998, 0x281fa4f8, 0x218c6056)
  {
    hide Stripes, Rest;
    assert InitLanes(0x0) == Lanes(0x24234428, 0x85ebca77, 0x0, 0x61c8864f);
    var s2 := Stripe([0x2d, 0x6e, 0x65, 0x76], [0x65, 0x72, 0x20, 0x6d], [0x69, 0x6e, 0x64, 0x20],
                     [0x68, 0x6f, 0x77, 0x20], ISHMAEL_TAIL);
    var s1 := Stripe([0x20, 0x53, 0x6f, 0x6d], [0x65, 0x20, 0x79, 0x65], [0x61, 0x72, 0x73, 0x20],
                     [0x61, 0x67, 0x6f, 0x2d], s2);
    NextStripe(Lanes(0x24234428, 0x85ebca77, 0x0, 0x61c8864f), [0x43, 0x61, 0x6c, 0x6c], [0x20, 0x6d, 0x65, 0x20],
               [0x49, 0x73, 0x68, 0x6d], [0x61, 0x65, 0x6c, 0x2e], s1,
               Lanes(0x6afd1158, 0x55b127e1, 0x6bc16fa1, 0x9fedfa86));
    NextStripe(Lanes(0x6afd1158, 0x55b127e1, 0x6bc16fa1, 0x9fedfa86), [0x20, 0x53, 0x6f, 0x6d],
               [0x65, 0x20, 0x79, 0x65], [0x61, 0x72, 0x73, 0x20], [0x61, 0x67, 0x6f, 0x2d], s2,
               Lanes(0xc13fa116, 0x38b3f2c8, 0x9e93f2d6, 0x87ce550a));
    NextStripe(Lanes(0xc13fa116, 0x38b3f2c8, 0x9e93f2d6, 0x87ce550a), [0x2d, 0x6e, 0x65, 0x76],
               [0x65, 0x72, 0x20, 0x6d], [0x69, 0x6e, 0x64, 0x20], [0x68, 0x6f, 0x77, 0x20], ISHMAEL_TAIL,
               Lanes(0x6e1706b4, 0x59567998, 0x281fa4f8, 0x218c6056));
    NoStripe(Lanes(0x6e1706b4, 0x59567998, 0x281fa4f8, 0x218c6056), ISHMAEL_TAIL);
  }

  lemma IshmaelSum()
    ensures Converge(Lanes(0x6e1706b4, 0x59567998, 0x281fa4f8, 0x218c6056)) ==
            0x312e246
  {
  }

  lemma IshmaelTail()
    ensures Tail(0x312e285, ISHMAEL_TAIL) == 0xca259f8
  {
    hide Tail, Absorb;
    var t5 := [0x2d];
    var t4 := [0x79] + t5;
    var t3 := [0x6c] + t4;
    var t2 := [0x63, 0x69, 0x73, 0x65] + t3;
    var t1 := [0x20, 0x70, 0x72, 0x65] + t2;
    NextOfTail(Four, 0x312e285, [0x6c, 0x6f, 0x6e, 0x67], t1, 0x623f4bc, 0x4e0f7103);
    NextOfTail(Four, 0x4e0f7103, [0x20, 0x70, 0x72, 0x65], t2, 0x2aba77a0, 0xfe844afd);
    NextOfTail(Four, 0xfe844afd, [0x63, 0x69, 0x73, 0x65], t3, 0xeaf76697, 0xeee27859);
    NextOfTail(One, 0xeee27859, [0x6c], t4, 0x6c73beac, 0xad6caaba);
    NextOfTail(One, 0xad6caaba, [0x79], t5, 0x8ed702a9, 0x1d6b742);
    LastOfTail(One, 0x1d6b742, [0x2d], 0xed303a1d, 0xca259f8);
  }

  /** Three stripes and a tail of 15 bytes, with units of four and one, without a seed. */
  lemma IshmaelHash()
    ensures Hash(ISHMAEL, 0x0) == 0x6f320359
  {
    hide Stripes, Converge, Tail, Avalanche, Rest, Add, InitLanes, Length32;
    IshmaelLanes();
    IshmaelSum();
    IshmaelLength();
    IshmaelTail();
    IshmaelEnd();
  }

  lemma IshmaelLength()
    ensures Add(0x312e246, Length32(63)) == 0x312e285
  {
    assert Length32(63) == 63;
  }

  lemma IshmaelEnd()
    ensures Avalanche(0xca259f8) == 0x6f320359
  {
  }

  lemma SanityLanes()
    ensures |SANITY| == 101 && Rest(SANITY) == SANITY_TAIL
    ensures Stripes(InitLanes(0x9e3779b1), SANITY) ==
            Lanes(0x311ccacb, 0x2d7b8d0, 0xa5dae915, 0xe23af073)
  {
    hide Stripes, Rest;
    assert InitLanes(0x9e3779b1) == Lanes(0xc25abdd9, 0x24234428, 0x9e3779b1, 0x0);
    var s5 := Stripe(ZEROS, ZEROS, ZEROS, ZEROS, SANITY_TAIL);
    var s4 := Stripe(ZEROS, ZEROS, ZEROS, ZEROS, s5);
    var s3 := Stripe(ZEROS, ZEROS, ZEROS, ZEROS, s4);
    var s2 := Stripe(ZEROS, ZEROS, ZEROS, ZEROS, s3);
    var s1 := Stripe([0x5d, 0xba, 0x74, 0xe9], [0xd3, 0xa6, 0x4c, 0x98], [0x30, 0x60, 0xc0, 0x80], ZEROS, s2);
    NextStripe(Lanes(0xc25abdd9, 0x24234428, 0x9e3779b1, 0x0), [0x9e, 0xff, 0x1f, 0x4b], [0x5e, 0x53, 0x2f, 0xdd],
               [0xb5, 0x54, 0x4d, 0x2a], [0x95, 0x2b, 0x57, 0xae], s1,
               Lanes(0x82c65dde, 0x4a3e0b66, 0x3f7d79c4, 0xaf374125));
    NextStripe(Lanes(0x82c65dde, 0x4a3e0b66, 0x3f7d79c4, 0xaf374125), [0x5d, 0xba, 0x74, 0xe9],
               [0xd3, 0xa6, 0x4c, 0x98], [0x30, 0x60, 0xc0, 0x80], ZEROS, s2,
               Lanes(0xd97528e, 0xbb6bfca6, 0x3e32935c, 0xe3c57a06));
    NextStripe(Lanes(0xd97528e, 0xbb6bfca6, 0x3e32935c, 0xe3c57a06), ZEROS, ZEROS, ZEROS, ZEROS, s3,
               Lanes(0x20520e12, 0x1e26775d, 0x2f0f75e6, 0x41d526f8));
    NextStripe(Lanes(0x20520e12, 0x1e26775d, 0x2f0f75e6, 0x41d526f8), ZEROS, ZEROS, ZEROS, ZEROS, s4,
               Lanes(0x139fc4ea, 0x986fde84, 0xab632991, 0xf98e1a1a));
    NextStripe(Lanes(0x139fc4ea, 0x986fde84, 0xab632991, 0xf98e1a1a), ZEROS, ZEROS, ZEROS, ZEROS, s5,
               Lanes(0x79d84c83, 0x4e81d0fd, 0xd52afbac, 0x8b19f9e1));
    NextStripe(Lanes(0x79d84c83, 0x4e81d0fd, 0xd52afbac, 0x8b19f9e1), ZEROS, ZEROS, ZEROS, ZEROS, SANITY_TAIL,
               Lanes(0x311ccacb, 0x2d7b8d0, 0xa5dae915, 0xe23af073));
    NoStripe(Lanes(0x311ccacb, 0x2d7b8d0, 0xa5dae915, 0xe23af073), SANITY_TAIL);
  }

  lemma SanitySum()
    ensures Converge(Lanes(0x311ccacb, 0x2d7b8d0, 0xa5dae915, 0xe23af073)) ==
            0x3e76e0df
  {
  }

  lemma SanityTail()
    ensures Tail(0x3e76e144, SANITY_TAIL) == 0x2e7c0208
  {
    hide Tail, Absorb;
    var t1 := [0x00];
    NextOfTail(Four, 0x3e76e144, ZEROS, t1, 0x0, 0x91007e83);
    LastOfTail(One, 0x91007e83, [0x00], 0x0, 0x2e7c0208);
  }

  /** Six stripes and a tail of five bytes, with a seed. */
  lemma SanityHash()
    ensures Hash(SANITY, 0x9e3779b1) == 0x498ec8e2
  {
    hide Stripes, Converge, Tail, Avalanche, Rest, Add, InitLanes, Length32;
    SanityLanes();
    SanitySum();
    SanityLength();
    SanityTail();
    SanityEnd();
  }

  lemma SanityLength()
    ensures Add(0x3e76e0df, Length32(101)) == 0x3e76e144
  {
    assert Length32(101) == 101;
  }

  lemma SanityEnd()
    ensures Avalanche(0x2e7c0208) == 0x498ec8e2
  {
  }

  lemma ShortTail()
    ensures Tail(0xb48de170, SHORT) == 0x4a1e98df
  {
    hide Tail, Absorb;
    var t4 := [0x2b];
    var t3 := [0x95] + t4;
    var t2 := [0xb5, 0x54, 0x4d, 0x2a] + t3;
    var t1 := [0x5e, 0x53, 0x2f, 0xdd] + t2;
    NextOfTail(Four, 0xb48de170, [0x9e, 0xff, 0x1f, 0x4b], t1, 0x1e394ca6, 0x8ef2bf12);
    NextOfTail(Four, 0x8ef2bf12, [0x5e, 0x53, 0x2f, 0xdd], t2, 0x124cc166, 0xe81ca51);
    NextOfTail(Four, 0xe81ca51, [0xb5, 0x54, 0x4d, 0x2a], t3, 0xb3da3521, 0x45835a99);
    NextOfTail(One, 0x45835a99, [0x95], t4, 0x4a5a05, 0x31652fce);
    LastOfTail(One, 0x31652fce, [0x2b], 0xc0836abb, 0x4a1e98df);
  }

  /** No stripe, and a tail with units of four and one, with a seed. */
  lemma ShortHash()
    ensures Hash(SHORT, 0x9e3779b1) == 0x4481951d
  {
    hide Stripes, Converge, Tail, Avalanche, Rest, Add, InitLanes, Length32;
    NoStripe(InitLanes(0x9e3779b1), SHORT);
    ShortLength();
    ShortTail();
    ShortEnd();
  }

  lemma ShortLength()
    ensures Add(0x9e3779b1, PRIME5) == 0xb48de162
    ensures Add(0xb48de162, Length32(14)) == 0xb48de170
  {
    assert Length32(14) == 14;
  }

  lemma ShortEnd()
    ensures Avalanche(0x4a1e98df) == 0x4481951d
  {
  }
}
