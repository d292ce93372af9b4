/** Published values of XXH64, evaluated step by step. */
module Xxh64Values {
  import opened Chunks
  import opened Words64
  import opened Xxh64

  const ZEROS: seq<Byte> := [0x00, 0x00, 0x00, 0x00, 0x00, 0x00, 0x00, 0x00]

  /** One stripe of four words, and what follows. */
  function Stripe(a: seq<Byte>, b: seq<Byte>, c: seq<Byte>, d: seq<Byte>, rest: seq<Byte>): seq<Byte> {
    a + b + c + d + rest
  }

  const ISHMAEL_TAIL: seq<Byte> :=
    [0x2d, 0x6e, 0x65, 0x76, 0x65, 0x72, 0x20, 0x6d] + ([0x69, 0x6e, 0x64, 0x20, 0x68, 0x6f, 0x77, 0x20]
    + ([0x6c, 0x6f, 0x6e, 0x67, 0x20, 0x70, 0x72, 0x65] + ([0x63, 0x69, 0x73, 0x65] + ([0x6c] + ([0x79]
    + [0x2d])))))

  /** "Call me Ishmael. Some years ago--never mind how long precisely-" */
  const ISHMAEL: seq<Byte> :=
    Stripe([0x43, 0x61, 0x6c, 0x6c, 0x20, 0x6d, 0x65, 0x20], [0x49, 0x73, 0x68, 0x6d, 0x61, 0x65, 0x6c, 0x2e],
           [0x20, 0x53, 0x6f, 0x6d, 0x65, 0x20, 0x79, 0x65], [0x61, 0x72, 0x73, 0x20, 0x61, 0x67, 0x6f, 0x2d],
    ISHMAEL_TAIL)

  const SANITY_TAIL: seq<Byte> :=
    [0x00, 0x00, 0x00, 0x00] + [0x00]

  /** The 101 bytes of the sanity check of xxHash: 30 of them by a rule, the rest zero. */
  const SANITY: seq<Byte> :=
    Stripe([0x9e, 0xff, 0x1f, 0x4b, 0x5e, 0x53, 0x2f, 0xdd], [0xb5, 0x54, 0x4d, 0x2a, 0x95, 0x2b, 0x57, 0xae],
           [0x5d, 0xba, 0x74, 0xe9, 0xd3, 0xa6, 0x4c, 0x98], [0x30, 0x60, 0xc0, 0x80, 0x00, 0x00, 0x00, 0x00],
    Stripe(ZEROS, ZEROS, ZEROS, ZEROS,
    Stripe(ZEROS, ZEROS, ZEROS, ZEROS,
    SANITY_TAIL)))

  /** The first 14 of them. */
  const SHORT: seq<Byte> :=
    [0x9e, 0xff, 0x1f, 0x4b, 0x5e, 0x53, 0x2f, 0xdd] + ([0xb5, 0x54, 0x4d, 0x2a] + ([0x95] + [0x2b]))

  lemma NextStripe(v: Lanes, a: seq<Byte>, b: seq<Byte>, c: seq<Byte>, d: seq<Byte>, rest: seq<Byte>, w: Lanes)
    requires |a| == |b| == |c| == |d| == 8
    requires w.v1 == Round(v.v1, Read64(a)) && w.v2 == Round(v.v2, Read64(b))
    requires w.v3 == Round(v.v3, Read64(c)) && w.v4 == Round(v.v4, Read64(d))
    ensures Stripes(v, Stripe(a, b, c, d, rest)) == Stripes(w, rest)
    ensures Rest(Stripe(a, b, c, d, rest)) == Rest(rest)
  {
    hide Round, Read64;
    var s := Stripe(a, b, c, d, rest);
    assert s[..32][0..8] == a && s[..32][8..16] == b;
    assert s[..32][16..24] == c && s[..32][24..32] == d;
    assert s[32..] == rest;
  }

  lemma NoStripe(v: Lanes, rest: seq<Byte>)
    requires |rest| < 32
    ensures Stripes(v, rest) == v && Rest(rest) == rest
  {
  }

  lemma NextOfTail(u: Unit, h: U64, a: seq<Byte>, rest: seq<Byte>, k: U64, h': U64)
    requires |a| == Width(u) && u == NextUnit(|a| + |rest|) && Key(u, a) == k && Mix(u, Xor(h, k)) == h'
    ensures Tail(h, a + rest) == Tail(h', rest)
  {
    hide Key, Mix, Xor;
    assert (a + rest)[..|a|] == a && (a + rest)[|a|..] == rest;
  }

  lemma LastOfTail(u: Unit, h: U64, a: seq<Byte>, k: U64, h': U64)
    requires |a| == Width(u) && u == NextUnit(|a|) && Key(u, a) == k && Mix(u, Xor(h, k)) == h'
    ensures Tail(h, a) == h'
  {
    hide Key, Mix, Xor;
    assert a[..|a|] == a && a[|a|..] == [];
  }

  lemma IshmaelLanes()
    ensures |ISHMAEL| == 63 && Rest(ISHMAEL) == ISHMAEL_TAIL
    ensures Stripes(InitLanes(0x0), ISHMAEL) ==
            Lanes(0x670b8618b3aa2200, 0xfc3ff3c0203bc028, 0x9677e9e66681d852, 0xda7d9aafd0c02036)
  {
    hide Stripes, Rest;
    assert InitLanes(0x0) == Lanes(0x60ea27eeadc0b5d6, 0xc2b2ae3d27d4eb4f, 0x0, 0x61c8864e7a143579);
    NextStripe(Lanes(0x60ea27eeadc0b5d6, 0xc2b2ae3d27d4eb4f, 0x0, 0x61c8864e7a143579),
               [0x43, 0x61, 0x6c, 0x6c, 0x20, 0x6d, 0x65, 0x20], [0x49, 0x73, 0x68, 0x6d, 0x61, 0x65, 0x6c, 0x2e],
               [0x20, 0x53, 0x6f, 0x6d, 0x65, 0x20, 0x79, 0x65], [0x61, 0x72, 0x73, 0x20, 0x61, 0x67, 0x6f, 0x2d],
               ISHMAEL_TAIL, Lanes(0x670b8618b3aa2200, 0xfc3ff3c0203bc028, 0x9677e9e66681d852, 0xda7d9aafd0c02036));
    NoStripe(Lanes(0x670b8618b3aa2200, 0xfc3ff3c0203bc028, 0x9677e9e66681d852, 0xda7d9aafd0c02036), ISHMAEL_TAIL);
  }

  lemma IshmaelSum()
    ensures Converge(Lanes(0x670b8618b3aa2200, 0xfc3ff3c0203bc028, 0x9677e9e66681d852, 0xda7d9aafd0c02036)) ==
            0xb89f94801d165f2a
  {
  }

  lemma IshmaelKey1()
    ensures Key(Eight, [0x2d, 0x6e, 0x65, 0x76, 0x65, 0x72, 0x20, 0x6d]) == 0x285d251bc27bcfb9
  {
    var p: seq<Byte> := [0x2d, 0x6e, 0x65, 0x76, 0x65, 0x72, 0x20, 0x6d];
    assert Read64(p) == 0x6d20726576656e2d;
    assert Round(0, 0x6d20726576656e2d) == 0x285d251bc27bcfb9;
  }

  lemma IshmaelKey2()
    ensures Key(Eight, [0x69, 0x6e, 0x64, 0x20, 0x68, 0x6f, 0x77, 0x20]) == 0xf656017ec77c8590
  {
    var p: seq<Byte> := [0x69, 0x6e, 0x64, 0x20, 0x68, 0x6f, 0x77, 0x20];
    assert Read64(p) == 0x20776f6820646e69;
    assert Round(0, 0x20776f6820646e69) == 0xf656017ec77c8590;
  }

  lemma IshmaelKey3()
    ensures Key(Eight, [0x6c, 0x6f, 0x6e, 0x67, 0x20, 0x70, 0x72, 0x65]) == 0xd8a17dd9c3294f62
  {
    var p: seq<Byte> := [0x6c, 0x6f, 0x6e, 0x67, 0x20, 0x70, 0x72, 0x65];
    assert Read64(p) == 0x65727020676e6f6c;
    assert Round(0, 0x65727020676e6f6c) == 0xd8a17dd9c3294f62;
  }

  lemma IshmaelKeys()
    ensures Key(Four, [0x63, 0x69, 0x73, 0x65]) == 0xa4f30f67bde5b135
    ensures Key(One, [0x6c]) == 0xcdd337dd6c73c71c
    ensures Key(One, [0x79]) == 0xd3a329418ed70c1d
    ensures Key(One, [0x2d]) == 0x6d5746ed303da1
  {
  }

  lemma IshmaelTail()
    ensures Tail(0xb89f94801d165f69, ISHMAEL_TAIL) == 0x7166e938ea5418d0
  {
    hide Tail, Absorb, Key;
    IshmaelKey1();
    IshmaelKey2();
    IshmaelKey3();
    IshmaelKeys();
    var t6 := [0x2d];
    var t5 := [0x79] + t6;
    var t4 := [0x6c] + t5;
    var t3 := [0x63, 0x69, 0x73, 0x65] + t4;
    var t2 := [0x6c, 0x6f, 0x6e, 0x67, 0x20, 0x70, 0x72, 0x65] + t3;
    var t1 := [0x69, 0x6e, 0x64, 0x20, 0x68, 0x6f, 0x77, 0x20] + t2;
    NextOfTail(Eight, 0xb89f94801d165f69, [0x2d, 0x6e, 0x65, 0x76, 0x65, 0x72, 0x20, 0x6d], t1, 0x285d251bc27bcfb9,
               0xc718c0cf5ec8337);
    NextOfTail(Eight, 0xc718c0cf5ec8337, [0x69, 0x6e, 0x64, 0x20, 0x68, 0x6f, 0x77, 0x20], t2, 0xf656017ec77c8590,
               0xdda50d5890eef8d0);
    NextOfTail(Eight, 0xdda50d5890eef8d0, [0x6c, 0x6f, 0x6e, 0x67, 0x20, 0x70, 0x72, 0x65], t3, 0xd8a17dd9c3294f62,
               0xe2e40ebea20f90ff);
    NextOfTail(Four, 0xe2e40ebea20f90ff, [0x63, 0x69, 0x73, 0x65], t4, 0xa4f30f67bde5b135, 0x2bca5f8585968679);
    NextOfTail(One, 0x2bca5f8585968679, [0x6c], t5, 0xcdd337dd6c73c71c, 0x165849e44031c250);
    NextOfTail(One, 0x165849e44031c250, [0x79], t6, 0xd3a329418ed70c1d, 0x9669659c916e30c9);
    LastOfTail(One, 0x9669659c916e30c9, [0x2d], 0x6d5746ed303da1, 0x7166e938ea5418d0);
  }

  /** One stripe and a tail of 31 bytes, with units of eight, four and one, without a seed. */
  lemma IshmaelHash()
    ensures Hash(ISHMAEL, 0x0) == 0x2a2e85470d6fd96
  {
    hide Stripes, Converge, Tail, Avalanche, Rest, Add, InitLanes, Length64;
    IshmaelLanes();
    IshmaelSum();
    IshmaelLength();
    IshmaelTail();
    IshmaelEnd();
  }

  lemma IshmaelLength()
    ensures Add(0xb89f94801d165f2a, Length64(63)) == 0xb89f94801d165f69
  {
    assert Length64(63) == 63;
  }

  lemma IshmaelEnd()
    ensures Avalanche(0x7166e938ea5418d0) == 0x2a2e85470d6fd96
  {
  }

  lemma SanityLanes()
    ensures |SANITY| == 101 && Rest(SANITY) == SANITY_TAIL
    ensures Stripes(InitLanes(0x9e3779b1), SANITY) ==
            Lanes(0xe8824c3ec4a4a5a7, 0xdee0c05fb1602c70, 0x636191e7df49478e, 0x6ea27555dfae420f)
  {
    hide Stripes, Rest;
    assert InitLanes(0x9e3779b1) == Lanes(0x60ea27ef4bf82f87, 0xc2b2ae3dc60c6500, 0x9e3779b1, 0x61c8864f184baf2a);
    var s2 := Stripe(ZEROS, ZEROS, ZEROS, ZEROS, SANITY_TAIL);
    var s1 := Stripe(ZEROS, ZEROS, ZEROS, ZEROS, s2);
    NextStripe(Lanes(0x60ea27ef4bf82f87, 0xc2b2ae3dc60c6500, 0x9e3779b1, 0x61c8864f184baf2a),
               [0x9e, 0xff, 0x1f, 0x4b, 0x5e, 0x53, 0x2f, 0xdd], [0xb5, 0x54, 0x4d, 0x2a, 0x95, 0x2b, 0x57, 0xae],
               [0x5d, 0xba, 0x74, 0xe9, 0xd3, 0xa6, 0x4c, 0x98], [0x30, 0x60, 0xc0, 0x80, 0x00, 0x00, 0x00, 0x00], s1,
               Lanes(0xd720d6104b9f4f46, 0xa3fbf2c752adad9a, 0x18511bf07c42e533, 0x4b891310298ba6b1));
    NextStripe(Lanes(0xd720d6104b9f4f46, 0xa3fbf2c752adad9a, 0x18511bf07c42e533, 0x4b891310298ba6b1), ZEROS, ZEROS,
               ZEROS, ZEROS, s2, Lanes(0x24d6e7c315f4c138, 0x161ab8200097a135, 0xc441b30514108dc8, 0x1bb20c726701d6b8));
    NextStripe(Lanes(0x24d6e7c315f4c138, 0x161ab8200097a135, 0xc441b30514108dc8, 0x1bb20c726701d6b8), ZEROS, ZEROS,
               ZEROS, ZEROS, SANITY_TAIL,
               Lanes(0xe8824c3ec4a4a5a7, 0xdee0c05fb1602c70, 0x636191e7df49478e, 0x6ea27555dfae420f));
    NoStripe(Lanes(0xe8824c3ec4a4a5a7, 0xdee0c05fb1602c70, 0x636191e7df49478e, 0x6ea27555dfae420f), SANITY_TAIL);
  }

  lemma SanitySum()
    ensures Converge(Lanes(0xe8824c3ec4a4a5a7, 0xdee0c05fb1602c70, 0x636191e7df49478e, 0x6ea27555dfae420f)) ==
            0xa5cd96c3f709e47e
  {
  }

  lemma SanityKeys()
    ensures Key(Four, [0x00, 0x00, 0x00, 0x00]) == 0x0
    ensures Key(One, [0x00]) == 0x0
  {
  }

  lemma SanityTail()
    ensures Tail(0xa5cd96c3f709e4e3, SANITY_TAIL) == 0x3cc9b5e66cfd94ad
  {
    hide Tail, Absorb, Key;
    SanityKeys();
    var t1 := [0x00];
    NextOfTail(Four, 0xa5cd96c3f709e4e3, [0x00, 0x00, 0x00, 0x00], t1, 0x0, 0x561592e65450b9e);
    LastOfTail(One, 0x561592e65450b9e, [0x00], 0x0, 0x3cc9b5e66cfd94ad);
  }

  /** Three stripes and a tail of five bytes, with a seed. */
  lemma SanityHash()
    ensures Hash(SANITY, 0x9e3779b1) == 0xcaa65939306f1e21
  {
    hide Stripes, Converge, Tail, Avalanche, Rest, Add, InitLanes, Length64;
    SanityLanes();
    SanitySum();
    SanityLength();
    SanityTail();
    SanityEnd();
  }

  lemma SanityLength()
    ensures Add(0xa5cd96c3f709e47e, Length64(101)) == 0xa5cd96c3f709e4e3
  {
    assert Length64(101) == 101;
  }

  lemma SanityEnd()
    ensures Avalanche(0x3cc9b5e66cfd94ad) == 0xcaa65939306f1e21
  {
  }

  lemma ShortKey1()
    ensures Key(Eight, [0x9e, 0xff, 0x1f, 0x4b, 0x5e, 0x53, 0x2f, 0xdd]) == 0xd5ac89023563e205
  {
    var p: seq<Byte> := [0x9e, 0xff, 0x1f, 0x4b, 0x5e, 0x53, 0x2f, 0xdd];
    assert Read64(p) == 0xdd2f535e4b1fff9e;
    assert Round(0, 0xdd2f535e4b1fff9e) == 0xd5ac89023563e205;
  }

  lemma ShortKeys()
    ensures Key(Four, [0xb5, 0x54, 0x4d, 0x2a]) == 0xcb85419b1ec57d73
    ensures Key(One, [0x95]) == 0x2eece268004a65a9
    ensures Key(One, [0x2b]) == 0xb0c380e8c0836e17
  {
  }

  lemma ShortTail()
    ensures Tail(0x27d4eb2fb48de184, SHORT) == 0x45c2e53989b25669
  {
    hide Tail, Absorb, Key;
    ShortKey1();
    ShortKeys();
    var t3 := [0x2b];
    var t2 := [0x95] + t3;
    var t1 := [0xb5, 0x54, 0x4d, 0x2a] + t2;
    NextOfTail(Eight, 0x27d4eb2fb48de184, [0x9e, 0xff, 0x1f, 0x4b, 0x5e, 0x53, 0x2f, 0xdd], t1, 0xd5ac89023563e205,
               0x3164064b7724f65a);
    NextOfTail(Four, 0x3164064b7724f65a, [0xb5, 0x54, 0x4d, 0x2a], t2, 0xcb85419b1ec57d73, 0x6f4cb3505acedd46);
    NextOfTail(One, 0x6f4cb3505acedd46, [0x95], t3, 0x2eece268004a65a9, 0xc126fc321d6e9edb);
    LastOfTail(One, 0xc126fc321d6e9edb, [0x2b], 0xb0c380e8c0836e17, 0x45c2e53989b25669);
  }

  /** No stripe, and a tail with units of eight, four and one, with a seed. */
  lemma ShortHash()
    ensures Hash(SHORT, 0x9e3779b1) == 0x5b9611585efcc9cb
  {
    hide Stripes, Converge, Tail, Avalanche, Rest, Add, InitLanes, Length64;
    NoStripe(InitLanes(0x9e3779b1), SHORT);
    ShortLength();
    ShortTail();
    ShortEnd();
  }

  lemma ShortLength()
    ensures Add(0x9e3779b1, PRIME5) == 0x27d4eb2fb48de176
    ensures Add(0x27d4eb2fb48de176, Length64(14)) == 0x27d4eb2fb48de184
  {
    assert Length64(14) == 14;
  }

  lemma ShortEnd()
    ensures Avalanche(0x45c2e53989b25669) == 0x5b9611585efcc9cb
  {
  }
}
