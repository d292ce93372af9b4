/** Where the patch blocks go: the mapped segments of the process, and a block behind a segment
    for every group of modules. */
module Placement {
  import opened Bytes
  import opened Slot
  import opened Records

  // segments kept
  const MAX_NUM_SEG: nat := 2048

  // reach of a block, a little below 2^31
  const REACH: int := 0x7FF00000

  datatype Seg = Seg(lo: nat, hi: nat)

  // library names kept
  const MAX_NUM_LIB: nat := 256

  const STACK: string := "[stack]"

  /** A line of the map: an address range, and the name at its end or "". */
  datatype Line = Line(lo: nat, hi: nat, name: string)

  /** The name of a line starts with [stack]. */
  predicate Stack(l: Line) { STACK <= l.name }

  /** A listed library: the name of a line and where that line starts. */
  datatype Lib = Lib(name: string, base: nat)

  // ----- reading the map

  /** A range starting where the last one ends extends it. */
  function Join(segs: seq<Seg>, l: Line): seq<Seg> {
    if segs != [] && segs[|segs| - 1].hi == l.lo
    then segs[..|segs| - 1] + [Seg(segs[|segs| - 1].lo, l.hi)]
    else segs + [Seg(l.lo, l.hi)]
  }

  predicate Contains(s: string, t: string) {
    exists k :: 0 <= k <= |s| && t <= s[k..]
  }

  /** A listed name is this one, or has it in it. */
  predicate Known(libs: seq<Lib>, name: string) {
    exists k :: 0 <= k < |libs| && Contains(libs[k].name, name)
  }

  /** The list after one more line. */
  function Enter(libs: seq<Lib>, l: Line): seq<Lib> {
    if l.name == "" || Known(libs, l.name) then libs else libs + [Lib(l.name, l.lo)]
  }

  datatype Map = Map(segs: seq<Seg>, libs: seq<Lib>)

  /** The loop of get_module_maps from line i on. The name of the last line is not looked at. */
  function ReadFrom(lines: seq<Line>, i: nat, m: Map): Map
    requires i <= |lines|
    decreases |lines| - i
  {
    if i == |lines| then m
    else
      var s := Join(m.segs, lines[i]);
      if i + 1 == |lines| then Map(s, m.libs)
      else if Stack(lines[i]) then Map(s[..|s| - 1], m.libs)
      else
        var libs := Enter(m.libs, lines[i]);
        if (libs != m.libs && |libs| >= MAX_NUM_LIB) || |s| >= MAX_NUM_SEG then Map(s, libs)
        else ReadFrom(lines, i + 1, Map(s, libs))
  }

  class Maps {
    const addrMin: array<nat>
    const addrMax: array<nat>
    var numSeg: nat
    const libs: array<Lib>
    var numLib: nat

    constructor ()
      ensures Valid() && Read() == Map([], []) && fresh(addrMin) && fresh(addrMax) && fresh(libs)
    {
      addrMin := new nat[MAX_NUM_SEG](_ => 0);
      addrMax := new nat[MAX_NUM_SEG](_ => 0);
      libs := new Lib[MAX_NUM_LIB](_ => Lib("", 0));
      numSeg, numLib := 0, 0;
    }

    ghost predicate Valid()
      reads this
    {
      && addrMin.Length == addrMax.Length == MAX_NUM_SEG && addrMin != addrMax && numSeg <= MAX_NUM_SEG
      && libs.Length == MAX_NUM_LIB && numLib <= MAX_NUM_LIB
    }

    ghost function Segs(): (s: seq<Seg>)
      requires Valid()
      reads this, addrMin, addrMax
      ensures |s| == numSeg
    {
      seq(numSeg, k requires 0 <= k < numSeg && Valid() reads this, addrMin, addrMax => Seg(addrMin[k], addrMax[k]))
    }

    /** What has been read so far. */
    ghost function Read(): Map
      requires Valid()
      reads this, addrMin, addrMax, libs
    {
      Map(Segs(), libs[..numLib])
    }

    /** One line entered into the arrays. */
    method AddLine(l: Line)
      requires Valid() && numSeg < MAX_NUM_SEG
      modifies this`numSeg, addrMin, addrMax
      ensures Valid() && Segs() == Join(old(Segs()), l) && numSeg > 0 && libs[..numLib] == old(libs[..numLib])
    {
      ghost var was := Segs();
      addrMin[numSeg] := l.lo;
      addrMax[numSeg] := l.hi;
      if numSeg >= 1 {
        if addrMin[numSeg] == addrMax[numSeg - 1] {
          addrMax[numSeg - 1] := addrMax[numSeg];
          numSeg := numSeg - 1;
        }
      }
      numSeg := numSeg + 1;
      assert Segs() == Join(was, l);
    }

    /** query_lib_name_in_list: an exact match first, then the first name with this one in it. */
    method Query(name: string) returns (i: int)
      requires Valid()
      ensures Finds(libs[..numLib], name, i)
    {
      for k := 0 to numLib
        invariant forall j :: 0 <= j < k ==> libs[j].name != name
      {
        if libs[k].name == name {
          return k;
        }
      }
      for k := 0 to numLib
        invariant forall j :: 0 <= j < k ==> !Contains(libs[j].name, name)
      {
        if Contains(libs[k].name, name) {
          return k;
        }
      }
      return -1;
    }

    /** A name entered into the list. */
    method AddName(l: Line)
      requires Valid() && numLib < MAX_NUM_LIB
      modifies this`numLib, libs
      ensures Valid() && libs[..numLib] == Enter(old(libs[..numLib]), l) && Segs() == old(Segs())
    {
      if l.name != "" {
        var i := Query(l.name);
        FoundIsKnown(libs[..numLib], l.name, i);
        if i == -1 {
          libs[numLib] := Lib(l.name, l.lo);
          numLib := numLib + 1;
        }
      }
    }

    /** The loop of get_module_maps. */
    method GetModuleMaps(lines: seq<Line>)
      requires Valid()
      modifies this`numSeg, this`numLib, addrMin, addrMax, libs
      ensures Valid() && Read() == ReadFrom(lines, 0, Map([], []))
    {
      hide Join, Enter;
      numSeg, numLib := 0, 0;
      var i := 0;
      assert Read() == Map([], []);
      while i < |lines|
        invariant 0 <= i <= |lines| && Valid() && numSeg < MAX_NUM_SEG && numLib < MAX_NUM_LIB
        invariant ReadFrom(lines, i, Read()) == ReadFrom(lines, 0, Map([], []))
      {
        ghost var was := Read();
        AddLine(lines[i]);
        if i + 1 < |lines| {
          if Stack(lines[i]) {
            ghost var s := Segs();
            numSeg := numSeg - 1;
            assert Segs() == s[..|s| - 1];
            return;
          }
          var n := numLib;
          AddName(lines[i]);
          EnterGrows(was.libs, lines[i]);
          if numLib != n && numLib >= MAX_NUM_LIB {
            return;
          }
        }
        i := i + 1;
        if numSeg >= MAX_NUM_SEG {
          return;
        }
      }
    }
  }

  lemma EnterGrows(libs: seq<Lib>, l: Line)
    ensures |libs| <= |Enter(libs, l)| <= |libs| + 1 && (Enter(libs, l) != libs <==> |Enter(libs, l)| == |libs| + 1)
  {
  }

  /** Index i is the exact match, or else the first listed name with this one in it, or else -1. */
  predicate Finds(libs: seq<Lib>, name: string, i: int) {
    && -1 <= i < |libs|
    && if i >= 0 && libs[i].name == name then forall j :: 0 <= j < i ==> libs[j].name != name
       else
         && (forall j :: 0 <= j < |libs| ==> libs[j].name != name)
         && (forall j :: 0 <= j < (if i < 0 then |libs| else i) ==> !Contains(libs[j].name, name))
         && (i >= 0 ==> Contains(libs[i].name, name))
  }

  lemma FoundIsKnown(libs: seq<Lib>, name: string, i: int)
    requires Finds(libs, name, i)
    ensures Known(libs, name) <==> i >= 0
  {
    ContainsItself(name);
  }

  lemma ContainsItself(s: string)
    ensures Contains(s, s)
  {
    assert s[0..] == s;
  }

  lemma {:induction false} ContainsJoins(s: string, t: string, u: string)
    requires Contains(s, t) && Contains(t, u)
    ensures Contains(s, u)
  {
    var j :| 0 <= j <= |s| && t <= s[j..];
    var k :| 0 <= k <= |t| && u <= t[k..];
    DropTwice(s, j, k);
    PrefixOfRest(t, s[j..], k);
    PrefixChain(u, t[k..], s[j..][k..]);
  }

  lemma PrefixOfRest(t: string, s: string, k: nat)
    requires t <= s && k <= |t|
    ensures t[k..] <= s[k..]
  {
  }

  lemma PrefixChain(u: string, t: string, s: string)
    requires u <= t && t <= s
    ensures u <= s
  {
  }

  lemma DropTwice(s: string, j: nat, k: nat)
    requires j + k <= |s|
    ensures s[j..][k..] == s[j + k..]
  {
  }

  /** The lines of a map: nonempty ranges in rising order. */
  ghost predicate Sorted(lines: seq<Line>) {
    && (forall i :: 0 <= i < |lines| ==> lines[i].lo < lines[i].hi)
    && forall i, j :: 0 <= i < j < |lines| ==> lines[i].hi <= lines[j].lo
  }

  /** Nonempty segments in rising order, with room between them. */
  ghost predicate Gapped(segs: seq<Seg>) {
    && (forall i :: 0 <= i < |segs| ==> segs[i].lo < segs[i].hi)
    && forall i, j :: 0 <= i < j < |segs| ==> segs[i].hi < segs[j].lo
  }

  ghost predicate InSegs(segs: seq<Seg>, a: nat) {
    exists i :: 0 <= i < |segs| && segs[i].lo <= a < segs[i].hi
  }

  ghost predicate InLines(lines: seq<Line>, a: nat) {
    exists i :: 0 <= i < |lines| && lines[i].lo <= a < lines[i].hi
  }

  /** The segments are the union of the lines. */
  ghost predicate Covers(segs: seq<Seg>, lines: seq<Line>) {
    forall a: nat :: InSegs(segs, a) <==> InLines(lines, a)
  }

  /** All lines joined. */
  function Joined(lines: seq<Line>): seq<Seg> {
    if lines == [] then [] else Join(Joined(lines[..|lines| - 1]), lines[|lines| - 1])
  }

  lemma JoinCovers(segs: seq<Seg>, lines: seq<Line>, l: Line)
    requires Covers(segs, lines) && Gapped(segs) && l.lo < l.hi
    requires segs != [] ==> segs[|segs| - 1].hi <= l.lo
    ensures Covers(Join(segs, l), lines + [l])
  {
    var segs', lines' := Join(segs, l), lines + [l];
    forall a: nat ensures InSegs(segs', a) <==> InLines(lines', a) {
      assert InSegs(segs', a) <==> InSegs(segs, a) || l.lo <= a < l.hi by {
        JoinMembers(segs, l, a);
      }
      assert InLines(lines', a) <==> InLines(lines, a) || l.lo <= a < l.hi by {
        if InLines(lines, a) {
          var i :| 0 <= i < |lines| && lines[i].lo <= a < lines[i].hi;
          assert lines'[i] == lines[i];
        }
        assert lines'[|lines|] == l;
      }
    }
  }

  lemma JoinMembers(segs: seq<Seg>, l: Line, a: nat)
    requires Gapped(segs) && l.lo < l.hi && (segs != [] ==> segs[|segs| - 1].hi <= l.lo)
    ensures InSegs(Join(segs, l), a) <==> InSegs(segs, a) || l.lo <= a < l.hi
  {
    var segs', n := Join(segs, l), |segs|;
    if InSegs(segs, a) {
      var i :| 0 <= i < n && segs[i].lo <= a < segs[i].hi;
      assert segs'[i].lo <= a < segs'[i].hi;
    }
    assert l.lo <= a < l.hi ==> segs'[|segs'| - 1].lo <= a < segs'[|segs'| - 1].hi;
    if InSegs(segs', a) {
      var i :| 0 <= i < |segs'| && segs'[i].lo <= a < segs'[i].hi;
      assert i < n && a < l.lo ==> segs[i].lo <= a < segs[i].hi;
    }
  }

  lemma JoinGapped(segs: seq<Seg>, l: Line)
    requires Gapped(segs) && l.lo < l.hi && (segs != [] ==> segs[|segs| - 1].hi <= l.lo)
    ensures Gapped(Join(segs, l)) && Join(segs, l) != [] && Join(segs, l)[|Join(segs, l)| - 1].hi == l.hi
    ensures |Join(segs, l)| <= |segs| + 1
  {
  }

  lemma SortedInit(lines: seq<Line>)
    requires Sorted(lines) && lines != []
    ensures var init, l := lines[..|lines| - 1], lines[|lines| - 1];
            Sorted(init) && l.lo < l.hi && (init != [] ==> init[|init| - 1].hi <= l.lo)
  {
  }

  /** Joining a sorted map covers the same addresses, and leaves a gap between any two segments. */
  lemma {:induction false} JoinedCovers(lines: seq<Line>)
    requires Sorted(lines)
    ensures Covers(Joined(lines), lines) && Gapped(Joined(lines)) && |Joined(lines)| <= |lines|
    ensures lines == [] <==> Joined(lines) == []
    ensures lines != [] ==> Joined(lines)[|Joined(lines)| - 1].hi == lines[|lines| - 1].hi
  {
    hide Join, Covers, Gapped, Sorted;
    if lines == [] {
      NothingCovered();
    } else {
      var init, l := lines[..|lines| - 1], lines[|lines| - 1];
      SortedInit(lines);
      JoinedCovers(init);
      JoinCovers(Joined(init), init, l);
      JoinGapped(Joined(init), l);
      assert init + [l] == lines;
    }
  }

  lemma NothingCovered()
    ensures Covers([], []) && Gapped([])
  {
    hide InSegs, InLines;
    forall a: nat ensures InSegs([], a) <==> InLines([], a) {
      NoSegsNoLines(a);
    }
  }

  lemma NoSegsNoLines(a: nat)
    ensures !InSegs([], a) && !InLines([], a)
  {
  }

  // ----- the names

  /** All names entered. */
  function Listed(lines: seq<Line>): seq<Lib> {
    if lines == [] then [] else Enter(Listed(lines[..|lines| - 1]), lines[|lines| - 1])
  }

  /** Line f has a name that is in no earlier name. */
  ghost predicate Fresh(lines: seq<Line>, f: int) {
    0 <= f < |lines| && lines[f].name != "" && forall k :: 0 <= k < f ==> !Contains(lines[k].name, lines[f].name)
  }

  /** A listed name has this one in it just if some name read so far has. */
  lemma {:induction false} KnownExactly(lines: seq<Line>, name: string)
    requires name != ""
    ensures Known(Listed(lines), name) <==> exists k :: 0 <= k < |lines| && Contains(lines[k].name, name)
  {
    hide Contains;
    if lines != [] {
      var init, last := lines[..|lines| - 1], lines[|lines| - 1];
      var libs, libs' := Listed(init), Listed(lines);
      KnownExactly(init, name);
      if Known(libs, name) {
        var k :| 0 <= k < |libs| && Contains(libs[k].name, name);
        assert libs'[k] == libs[k];
        var j :| 0 <= j < |init| && Contains(init[j].name, name);
        assert lines[j] == init[j];
      }
      if Contains(last.name, name) {
        LastIsKnown(lines, name);
      }
      if Known(libs', name) && !Known(libs, name) {
        var k :| 0 <= k < |libs'| && Contains(libs'[k].name, name);
        assert k == |libs| && lines[|lines| - 1] == last;
      }
      if k :| 0 <= k < |lines| && Contains(lines[k].name, name) && k < |init| {
        assert init[k] == lines[k];
      }
    }
  }

  lemma LastIsKnown(lines: seq<Line>, name: string)
    requires name != "" && lines != [] && Contains(lines[|lines| - 1].name, name)
    ensures Known(Listed(lines), name)
  {
    var libs, last := Listed(lines[..|lines| - 1]), lines[|lines| - 1];
    if Known(libs, last.name) {
      var k :| 0 <= k < |libs| && Contains(libs[k].name, last.name);
      ContainsJoins(libs[k].name, last.name, name);
    } else {
      hide Contains;
      assert Listed(lines)[|libs|] == Lib(last.name, last.lo) by { NotEmpty(last.name, name); }
    }
  }

  lemma NotEmpty(s: string, t: string)
    requires Contains(s, t) && t != ""
    ensures s != ""
  {
  }

  lemma EnterLast(lines: seq<Line>)
    requires lines != []
    ensures var init, last := lines[..|lines| - 1], lines[|lines| - 1];
            Listed(lines) == if last.name == "" || Known(Listed(init), last.name) then Listed(init)
                             else Listed(init) + [Lib(last.name, last.lo)]
  {
  }

  /** A library is listed with the start of a line just if that line is the first with its name
      and no earlier line's name has this one in it. */
  lemma {:induction false} ListedExactly(lines: seq<Line>, l: Lib)
    ensures l in Listed(lines) <==> exists f :: Fresh(lines, f) && l == Lib(lines[f].name, lines[f].lo)
  {
    hide Contains, Enter;
    if lines != [] {
      EnterLast(lines);
      var init, last, n := lines[..|lines| - 1], lines[|lines| - 1], |lines| - 1;
      ListedExactly(init, l);
      forall f | 0 <= f < n ensures Fresh(lines, f) == Fresh(init, f) && lines[f] == init[f] {
      }
      if last.name != "" {
        KnownExactly(init, last.name);
      }
      assert Fresh(lines, n) <==> Listed(lines) != Listed(init);
      if l in Listed(init) {
        var f :| Fresh(init, f) && l == Lib(init[f].name, init[f].lo);
        assert Fresh(lines, f);
      }
      if f :| Fresh(lines, f) && l == Lib(lines[f].name, lines[f].lo) && f < n {
        assert Fresh(init, f);
      }
    }
  }

  /** Looking up the name that line f is the first to have finds that line's address, unless the
      name is part of an earlier name: then it finds another library. */
  lemma BaseExactly(lines: seq<Line>, f: nat, i: int)
    requires f < |lines| && lines[f].name != "" && Finds(Listed(lines), lines[f].name, i)
    requires forall k :: 0 <= k < f ==> lines[k].name != lines[f].name
    ensures 0 <= i < |Listed(lines)|
    ensures Listed(lines)[i] == Lib(lines[f].name, lines[f].lo) <==> Fresh(lines, f)
    ensures !Fresh(lines, f) ==> Listed(lines)[i].name != lines[f].name
  {
    var libs, name := Listed(lines), lines[f].name;
    ContainsItself(name);
    KnownExactly(lines, name);
    FoundIsKnown(libs, name, i);
    hide Contains, Listed;
    assert libs[i] in libs;
    if Fresh(lines, f) {
      ListedExactly(lines, Lib(name, lines[f].lo));
      var j :| 0 <= j < |libs| && libs[j] == Lib(name, lines[f].lo);
      assert libs[j].name == name;
    }
    if libs[i].name == name {
      NameIsFresh(lines, f, libs[i]);
    }
  }

  lemma NameIsFresh(lines: seq<Line>, f: nat, l: Lib)
    requires f < |lines| && l in Listed(lines) && l.name == lines[f].name
    requires forall k :: 0 <= k < f ==> lines[k].name != lines[f].name
    ensures Fresh(lines, f) && l.base == lines[f].lo
  {
    ContainsItself(l.name);
    hide Contains, Listed;
    ListedExactly(lines, l);
    var g :| Fresh(lines, g) && l == Lib(lines[g].name, lines[g].lo);
    assert Contains(lines[f].name, l.name);
  }

  /** Two lines of a map, the second name part of the first: the second library is not listed, and
      looking it up finds the first. */
  lemma BaseLost()
    ensures var lines := [Line(0x10000, 0x20000, "/lib/libc.so.6"), Line(0x40000, 0x50000, "/lib/libc.so")];
            && Sorted(lines) && Paged(lines) && !Fresh(lines, 1)
            && Listed(lines) == [Lib("/lib/libc.so.6", 0x10000)] && Finds(Listed(lines), "/lib/libc.so", 0)
  {
    var first, second := Line(0x10000, 0x20000, "/lib/libc.so.6"), Line(0x40000, 0x50000, "/lib/libc.so");
    var lines, libs := [first, second], [Lib("/lib/libc.so.6", 0x10000)];
    assert second.name == first.name[..12] && first.name[0..] == first.name;
    assert second.name <= first.name[0..];
    assert Contains(first.name, second.name);
    hide Contains;
    assert lines[..1] == [first] && [first][..0] == [];
    assert Listed([first]) == libs;
    assert Contains(libs[0].name, second.name);
    assert Known(libs, second.name);
  }

  // ----- the whole loop

  /** What has been read after i lines. */
  function Sofar(lines: seq<Line>, i: nat): Map
    requires i <= |lines|
  {
    Map(Joined(lines[..i]), Listed(lines[..i]))
  }

  lemma {:induction false} ListGrows(lines: seq<Line>, i: nat, k: nat)
    requires i <= k <= |lines|
    ensures |Listed(lines[..i])| <= |Listed(lines[..k])|
    decreases k - i
  {
    hide Enter;
    if i < k {
      ListGrows(lines, i, k - 1);
      assert lines[..k][..k - 1] == lines[..k - 1];
      EnterGrows(Listed(lines[..k - 1]), lines[k - 1]);
    }
  }

  /** The kernel maps whole pages. */
  predicate Paged(lines: seq<Line>) {
    forall i :: 0 <= i < |lines| ==> lines[i].lo % MIN_MEM_SIZE == 0 && lines[i].hi % MIN_MEM_SIZE == 0
  }

  predicate PagedSegs(segs: seq<Seg>) {
    forall i :: 0 <= i < |segs| ==> segs[i].lo % MIN_MEM_SIZE == 0 && segs[i].hi % MIN_MEM_SIZE == 0
  }

  lemma {:induction false} JoinedPaged(lines: seq<Line>)
    requires Paged(lines)
    ensures PagedSegs(Joined(lines))
  {
    hide Join;
    if lines != [] {
      JoinedPaged(lines[..|lines| - 1]);
      JoinPaged(Joined(lines[..|lines| - 1]), lines[|lines| - 1]);
    }
  }

  lemma JoinPaged(segs: seq<Seg>, l: Line)
    requires PagedSegs(segs) && l.lo % MIN_MEM_SIZE == 0 && l.hi % MIN_MEM_SIZE == 0
    ensures PagedSegs(Join(segs, l))
  {
  }

  /** Up to a stack line, or the last line, the loop joins. */
  lemma {:induction false} ReadsJoined(lines: seq<Line>, i: nat, k: nat)
    requires i <= k < |lines| < MAX_NUM_SEG && Sorted(lines) && |Listed(lines[..k])| < MAX_NUM_LIB
    requires forall j :: 0 <= j < k ==> !Stack(lines[j])
    ensures ReadFrom(lines, i, Sofar(lines, i)) == ReadFrom(lines, k, Sofar(lines, k))
    decreases k - i
  {
    hide Joined, Listed, ReadFrom, Sofar, Sorted;
    if i < k {
      ListGrows(lines, i + 1, k);
      ReadsOne(lines, i);
      ReadsJoined(lines, i + 1, k);
    }
  }

  lemma ReadsOne(lines: seq<Line>, i: nat)
    requires i + 1 < |lines| < MAX_NUM_SEG && Sorted(lines) && !Stack(lines[i])
    requires |Listed(lines[..i + 1])| < MAX_NUM_LIB
    ensures ReadFrom(lines, i, Sofar(lines, i)) == ReadFrom(lines, i + 1, Sofar(lines, i + 1))
  {
    hide Join, Enter, Covers, Gapped;
    var next := lines[..i + 1];
    assert next[..i] == lines[..i] && next[i] == lines[i];
    JoinedCovers(next);
  }

  lemma {:induction false} WholeJoined(lines: seq<Line>)
    requires Sorted(lines) && 0 < |lines| < MAX_NUM_SEG
    requires |Listed(lines[..|lines| - 1])| < MAX_NUM_LIB
    requires forall j :: 0 <= j && j + 1 < |lines| ==> !Stack(lines[j])
    ensures ReadFrom(lines, 0, Map([], [])) == Map(Joined(lines), Listed(lines[..|lines| - 1]))
  {
    ReadsJoined(lines, 0, |lines| - 1);
    assert lines[..0] == [];
  }

  /** A map without a stack line before its last line is joined as a whole. */
  lemma {:induction false} WholeMap(lines: seq<Line>)
    requires Sorted(lines) && 0 < |lines| < MAX_NUM_SEG
    requires |Listed(lines[..|lines| - 1])| < MAX_NUM_LIB
    requires forall j :: 0 <= j && j + 1 < |lines| ==> !Stack(lines[j])
    ensures var m := ReadFrom(lines, 0, Map([], []));
            Covers(m.segs, lines) && Gapped(m.segs) && m.libs == Listed(lines[..|lines| - 1])
  {
    hide Covers, Gapped, Joined, Listed, ReadFrom;
    WholeJoined(lines);
    JoinedCovers(lines);
  }

  /** Reading stops at the stack line k, with the lines before it joined, but for the last segment
      if the stack starts where that ends. */
  lemma {:induction false} StackEndsMap(lines: seq<Line>, k: nat)
    requires Sorted(lines) && k + 1 < |lines| < MAX_NUM_SEG && Stack(lines[k])
    requires |Listed(lines[..k])| < MAX_NUM_LIB && forall j :: 0 <= j < k ==> !Stack(lines[j])
    ensures Joined(lines[..k]) == [] <==> k == 0
    ensures var m, segs := ReadFrom(lines, 0, Map([], [])), Joined(lines[..k]);
            && m.libs == Listed(lines[..k])
            && m.segs == if k > 0 && lines[k - 1].hi == lines[k].lo then segs[..|segs| - 1] else segs
  {
    hide Covers, Gapped, Joined, Join, ReadFrom, Listed;
    NothingJoined();
    assert lines[..0] == [];
    JoinedCovers(lines[..k]);
    ReadsJoined(lines, 0, k);
    StopsAtStack(lines, k, Sofar(lines, k));
  }

  /** Reading stops at the stack line k. The segments are exactly the lines before it, unless
      the stack starts where the line before it ends: then that line's segment is lost too. */
  lemma {:induction false} MapUpToStack(lines: seq<Line>, k: nat)
    requires Sorted(lines) && k + 1 < |lines| < MAX_NUM_SEG && Stack(lines[k])
    requires |Listed(lines[..k])| < MAX_NUM_LIB && forall j :: 0 <= j < k ==> !Stack(lines[j])
    ensures var m := ReadFrom(lines, 0, Map([], []));
            && Gapped(m.segs) && m.libs == Listed(lines[..k])
            && (Covers(m.segs, lines[..k]) <==> k == 0 || lines[k - 1].hi != lines[k].lo)
            && (k > 0 && lines[k - 1].hi != lines[k].lo ==>
                  m.segs != [] && m.segs[|m.segs| - 1].hi == lines[k - 1].hi)
  {
    hide Covers, Gapped, Joined, Join, ReadFrom, Listed, Sorted, Stack;
    var before, touches := lines[..k], k > 0 && lines[k - 1].hi == lines[k].lo;
    StackEndsMap(lines, k);
    SortedPrefix(lines, k);
    JoinedCovers(before);
    if touches {
      LastIsLost(Joined(before), before);
    }
  }

  lemma SortedPrefix(lines: seq<Line>, k: nat)
    requires Sorted(lines) && k <= |lines|
    ensures Sorted(lines[..k])
  {
  }

  lemma NothingJoined()
    ensures Joined([]) == [] && Listed([]) == []
  {
  }

  /** The stack line takes back one segment: its own, or the one it extended. */
  lemma StopsAtStack(lines: seq<Line>, k: nat, m: Map)
    requires k + 1 < |lines| && Stack(lines[k])
    requires m.segs == [] <==> k == 0
    requires k > 0 ==> m.segs[|m.segs| - 1].hi == lines[k - 1].hi
    ensures ReadFrom(lines, k, m) ==
            if k > 0 && lines[k - 1].hi == lines[k].lo then Map(m.segs[..|m.segs| - 1], m.libs) else m
  {
    var s := Join(m.segs, lines[k]);
    assert ReadFrom(lines, k, m) == Map(s[..|s| - 1], m.libs);
    assert m.segs != [] && m.segs[|m.segs| - 1].hi == lines[k].lo ==> s[..|s| - 1] == m.segs[..|m.segs| - 1];
  }

  /** A stack right behind the only library: nothing of the map is left. */
  lemma StackTakesLibrary()
    ensures var lines := [Line(0x7ff000000000, 0x7ff000200000, "/lib64/libc.so.6"),
                          Line(0x7ff000200000, 0x7ff000221000, STACK),
                          Line(0x7ff000300000, 0x7ff000302000, "[vdso]")];
            && Sorted(lines) && ReadFrom(lines, 0, Map([], [])).segs == []
            && !Covers(ReadFrom(lines, 0, Map([], [])).segs, lines[..1])
  {
    var lines := [Line(0x7ff000000000, 0x7ff000200000, "/lib64/libc.so.6"),
                  Line(0x7ff000200000, 0x7ff000221000, STACK),
                  Line(0x7ff000300000, 0x7ff000302000, "[vdso]")];
    var m1 := Map([Seg(0x7ff000000000, 0x7ff000200000)], [Lib("/lib64/libc.so.6", 0x7ff000000000)]);
    assert ReadFrom(lines, 1, m1) == Map([], m1.libs);
    assert lines[0].name[0] != STACK[0];
    assert Enter([], lines[0]) == m1.libs && Join([], lines[0]) == m1.segs && !Stack(lines[0]);
    assert ReadFrom(lines, 0, Map([], [])) == ReadFrom(lines, 1, m1);
    assert lines[..1][0] == lines[0];
    assert InLines(lines[..1], 0x7ff000000000);
  }

  lemma LastIsLost(segs: seq<Seg>, lines: seq<Line>)
    requires Gapped(segs) && Covers(segs, lines) && segs != []
    ensures Gapped(segs[..|segs| - 1]) && !Covers(segs[..|segs| - 1], lines)
  {
    var n := |segs| - 1;
    var a, init := segs[n].lo, segs[..n];
    assert segs[n].lo <= a < segs[n].hi;
    assert InSegs(segs, a);
    assert !InSegs(init, a);
  }

  // ----- allocating the blocks

  /** A module: the lowest and the highest address to hook, and the block it is assigned. */
  datatype Range = Range(min: nat, max: nat, blk: nat)

  predicate Nothing(m: Range) { m.min == 0 && m.max == 0 }

  function Abs(x: int): nat { if x < 0 then -x else x }

  /** The test of find_usable_block: both ends within reach of the middle of the block. */
  predicate InReach(block: nat, m: Range) {
    Abs(m.min - (block + 0x800)) < REACH && Abs(m.max - (block + 0x800)) < REACH
  }

  method FindUsableBlock(blocks: seq<nat>, m: Range) returns (i: int)
    ensures -1 <= i < |blocks|
    ensures i >= 0 ==> InReach(blocks[i], m)
    ensures forall k :: 0 <= k < (if i < 0 then |blocks| else i) ==> !InReach(blocks[k], m)
  {
    i := 0;
    while i < |blocks|
      invariant 0 <= i <= |blocks|
      invariant forall k :: 0 <= k < i ==> !InReach(blocks[k], m)
    {
      var mid := (blocks[i] + (blocks[i] + MIN_MEM_SIZE)) / 2;
      if Abs(m.min - mid) < REACH && Abs(m.max - mid) < REACH {
        return;
      }
      i := i + 1;
    }
    i := -1;
  }

  /** The first segment with min <= address <= max. */
  predicate FirstSeg(segs: seq<Seg>, a: nat, s: int) {
    && 0 <= s < |segs| && segs[s].lo <= a <= segs[s].hi
    && forall k :: 0 <= k < s ==> !(segs[k].lo <= a <= segs[k].hi)
  }

  function Mid(m: Range): nat { (m.min + m.max) / 2 }

  /** A block fits behind segment s. */
  predicate RoomBehind(segs: seq<Seg>, s: nat)
    requires s < |segs|
  {
    s + 1 < |segs| ==> segs[s + 1].lo - segs[s].hi >= MIN_MEM_SIZE
  }

  /** Block k was made for module made[k], behind that module's segment, no earlier block being
      usable. */
  ghost predicate Made(segs: seq<Seg>, mods: seq<Range>, blocks: seq<nat>, made: seq<nat>, k: nat)
    requires k < |made| <= |blocks|
  {
    && made[k] < |mods| && !Nothing(mods[made[k]])
    && (exists s: nat :: FirstSeg(segs, Mid(mods[made[k]]), s) && RoomBehind(segs, s) && blocks[k] == segs[s].hi)
    && forall j :: 0 <= j < k ==> !InReach(blocks[j], mods[made[k]])
  }

  /** The first n modules have been through allocate_memory_block_for_patches. A module assigned
      to an existing block records it. A module that gets a new block does not. */
  ghost predicate Allocated(segs: seq<Seg>, mods: seq<Range>, mods': seq<Range>, n: nat,
                            blocks: seq<nat>, made: seq<nat>) {
    && |mods'| == |mods| && |made| == |blocks| <= n <= |mods|
    && (forall k :: 0 <= k < |made| ==> Made(segs, mods, blocks, made, k) && made[k] < n)
    && (forall j, k :: 0 <= j < k < |made| ==> made[j] < made[k])
    && (forall i :: 0 <= i < |mods| ==> mods'[i].min == mods[i].min && mods'[i].max == mods[i].max)
    && (forall i :: 0 <= i < |mods| && (i in made || Nothing(mods[i]) || i >= n) ==> mods'[i] == mods[i])
    && forall i :: 0 <= i < n && i !in made && !Nothing(mods[i]) ==>
         mods'[i].blk < |blocks| && InReach(blocks[mods'[i].blk], mods[i]) && made[mods'[i].blk] < i
  }

  class Allocator {
    var modules: seq<Range>
    var blocks: seq<nat>
    ghost var made: seq<nat>

    /** allocate_memory_block_for_patches; false stands for its exits. */
    method Allocate(segs: seq<Seg>) returns (ok: bool)
      modifies this
      ensures ok ==> Allocated(segs, old(modules), modules, |modules|, blocks, made)
      ensures !ok ==> exists i: nat :: GaveUp(segs, old(modules), modules, i, blocks, made)
      ensures Gapped(segs) && PagedSegs(segs) && OneSegment(segs, old(modules)) ==> ok
    {
      hide InReach, FirstSeg, Made, Stuck, RoomBehind, Allocated, Gapped, PagedSegs, OneSegment;
      blocks, made := [], [];
      ghost var mods := modules;
      var i := 0;
      NothingPlaced(segs, mods);
      while i < |modules|
        invariant 0 <= i <= |modules| == |mods| && Allocated(segs, mods, modules, i, blocks, made)
      {
        var m := modules[i];
        NotYet(segs, mods, modules, i, blocks, made);
        if m.min != 0 || m.max != 0 {
          var b := FindUsableBlock(blocks, m);
          if b >= 0 {
            OldBlock(segs, mods, modules, i, blocks, made, b);
            modules := modules[i := m.(blk := b)];
          } else {
            var s := PlaceBehind(segs, m);
            if s < 0 {
              assert GaveUp(segs, mods, modules, i, blocks, made);
              GivesUpOutside(segs, mods, modules, i, blocks, made);
              return false;
            }
            NewBlock(segs, mods, modules, i, blocks, made, s);
            blocks, made := blocks + [segs[s].hi], made + [i];
            i := i + 1;
            continue;
          }
        } else {
          NoBlock(segs, mods, modules, i, blocks, made);
        }
        i := i + 1;
      }
      return true;
    }

    /** The segment behind which a block for m goes, or -1. */
    method PlaceBehind(segs: seq<Seg>, m: Range) returns (s: int)
      ensures s >= 0 ==> s < |segs| && FirstSeg(segs, Mid(m), s) && RoomBehind(segs, s)
      ensures s < 0 ==> Stuck(segs, m)
    {
      hide Mid;
      s := SegOf(segs, Mid(m));
      if s < 0 || (s < |segs| - 1 && segs[s + 1].lo - segs[s].hi < MIN_MEM_SIZE) {
        StuckThere(segs, m, s);
        return -1;
      }
    }

    method SegOf(segs: seq<Seg>, a: nat) returns (s: int)
      ensures s >= 0 ==> FirstSeg(segs, a, s)
      ensures s < 0 ==> s == -1 && forall k :: 0 <= k < |segs| ==> !(segs[k].lo <= a <= segs[k].hi)
    {
      for k := 0 to |segs|
        invariant forall j :: 0 <= j < k ==> !(segs[j].lo <= a <= segs[j].hi)
      {
        if a >= segs[k].lo && a <= segs[k].hi {
          return k;
        }
      }
      return -1;
    }
  }

  /** No segment holds the middle of the module, or no block fits behind the first that does. */
  ghost predicate Stuck(segs: seq<Seg>, m: Range) {
    forall s: nat :: FirstSeg(segs, Mid(m), s) ==> !RoomBehind(segs, s)
  }

  /** The allocation stops at module i: the modules before it are placed, no block made so far is
      usable for it, and there is no place for another. */
  ghost predicate GaveUp(segs: seq<Seg>, mods: seq<Range>, mods': seq<Range>, i: nat,
                         blocks: seq<nat>, made: seq<nat>) {
    && i < |mods| && !Nothing(mods[i]) && Stuck(segs, mods[i]) && Allocated(segs, mods, mods', i, blocks, made)
    && forall k :: 0 <= k < |blocks| ==> !InReach(blocks[k], mods[i])
  }

  /** Between segments of whole pages there is always room for a block. */
  lemma RoomByPages(segs: seq<Seg>, s: nat)
    requires Gapped(segs) && PagedSegs(segs) && s < |segs|
    ensures RoomBehind(segs, s)
  {
    if s + 1 < |segs| {
      PagesApart(segs[s].hi, segs[s + 1].lo);
    }
  }

  lemma PagesApart(a: nat, b: nat)
    requires a < b && a % MIN_MEM_SIZE == 0 && b % MIN_MEM_SIZE == 0
    ensures a + MIN_MEM_SIZE <= b
  {
  }

  /** A module inside a segment always gets a block. */
  lemma NeverStuck(segs: seq<Seg>, m: Range, s: nat)
    requires Gapped(segs) && PagedSegs(segs) && Within(segs, m, s)
    ensures !Stuck(segs, m)
  {
    assert segs[s].lo <= Mid(m) < segs[s].hi;
    RoomByPages(segs, s);
    assert FirstSeg(segs, Mid(m), s);
  }

  lemma StuckThere(segs: seq<Seg>, m: Range, s: int)
    requires s < 0 ==> forall k :: 0 <= k < |segs| ==> !(segs[k].lo <= Mid(m) <= segs[k].hi)
    requires s >= 0 ==> FirstSeg(segs, Mid(m), s) && !RoomBehind(segs, s)
    ensures Stuck(segs, m)
  {
    forall t: nat | FirstSeg(segs, Mid(m), t) ensures !RoomBehind(segs, t) {
      assert t == s;
    }
  }

  /** It gives up only if some module lies in no segment. */
  lemma GivesUpOutside(segs: seq<Seg>, mods: seq<Range>, mods': seq<Range>, i: nat, blocks: seq<nat>, made: seq<nat>)
    requires GaveUp(segs, mods, mods', i, blocks, made)
    ensures !(Gapped(segs) && PagedSegs(segs) && OneSegment(segs, mods))
  {
    if Gapped(segs) && PagedSegs(segs) && OneSegment(segs, mods) {
      var s: nat :| Within(segs, mods[i], s);
      NeverStuck(segs, mods[i], s);
    }
  }

  lemma NothingPlaced(segs: seq<Seg>, mods: seq<Range>)
    ensures Allocated(segs, mods, mods, 0, [], [])
  {
  }

  lemma NotYet(segs: seq<Seg>, mods: seq<Range>, mods': seq<Range>, i: nat, blocks: seq<nat>, made: seq<nat>)
    requires Allocated(segs, mods, mods', i, blocks, made)
    ensures |mods'| == |mods| && (i < |mods| ==> mods'[i] == mods[i])
  {
  }

  lemma NoBlock(segs: seq<Seg>, mods: seq<Range>, mods': seq<Range>, i: nat, blocks: seq<nat>, made: seq<nat>)
    requires Allocated(segs, mods, mods', i, blocks, made) && i < |mods| && Nothing(mods[i])
    ensures Allocated(segs, mods, mods', i + 1, blocks, made)
  {
    hide Made, InReach;
  }

  lemma OldBlock(segs: seq<Seg>, mods: seq<Range>, mods': seq<Range>, i: nat, blocks: seq<nat>, made: seq<nat>, b: nat)
    requires Allocated(segs, mods, mods', i, blocks, made) && i < |mods| && !Nothing(mods[i])
    requires b < |blocks| && InReach(blocks[b], mods[i])
    ensures i < |mods'| && Allocated(segs, mods, mods'[i := mods'[i].(blk := b)], i + 1, blocks, made)
  {
    hide Made, InReach;
  }

  lemma NewBlock(segs: seq<Seg>, mods: seq<Range>, mods': seq<Range>, i: nat, blocks: seq<nat>, made: seq<nat>, s: nat)
    requires Allocated(segs, mods, mods', i, blocks, made) && i < |mods| && !Nothing(mods[i])
    requires forall k :: 0 <= k < |blocks| ==> !InReach(blocks[k], mods[i])
    requires FirstSeg(segs, Mid(mods[i]), s) && RoomBehind(segs, s)
    ensures Allocated(segs, mods, mods', i + 1, blocks + [segs[s].hi], made + [i])
  {
    var blocks', made' := blocks + [segs[s].hi], made + [i];
    hide InReach;
    forall k | 0 <= k < |made'| ensures Made(segs, mods, blocks', made', k) {
      if k < |made| {
        assert Made(segs, mods, blocks, made, k);
      }
    }
    assert forall j :: j in made' <==> j in made || j == i;
  }

  // ----- what the placement guarantees

  /** All addresses of the module lie in segment s. */
  predicate Within(segs: seq<Seg>, m: Range, s: nat) {
    s < |segs| && segs[s].lo <= m.min <= m.max < segs[s].hi
  }

  /** Segments are shorter than the reach. */
  predicate Short(segs: seq<Seg>) {
    forall s :: 0 <= s < |segs| ==> segs[s].hi - segs[s].lo < REACH - 0x800
  }

  /** Every module with something to hook lies in one segment. */
  ghost predicate OneSegment(segs: seq<Seg>, mods: seq<Range>) {
    forall i :: 0 <= i < |mods| && !Nothing(mods[i]) ==> exists s: nat :: Within(segs, mods[i], s)
  }

  /** A new block is behind the segment its module lies in, and within reach of everything there. */
  lemma MadeBehind(segs: seq<Seg>, mods: seq<Range>, blocks: seq<nat>, made: seq<nat>, k: nat) returns (s: nat)
    requires Gapped(segs) && Short(segs) && OneSegment(segs, mods)
    requires k < |made| <= |blocks| && Made(segs, mods, blocks, made, k)
    ensures Within(segs, mods[made[k]], s) && RoomBehind(segs, s) && blocks[k] == segs[s].hi
    ensures forall m: Range :: Within(segs, m, s) ==> InReach(blocks[k], m)
  {
    hide InReach;
    var m := mods[made[k]];
    s :| FirstSeg(segs, Mid(m), s) && RoomBehind(segs, s) && blocks[k] == segs[s].hi;
    var t: nat :| Within(segs, m, t);
    assert segs[t].lo <= Mid(m) < segs[t].hi;
    assert s == t;
    forall n: Range | Within(segs, n, s) ensures InReach(blocks[k], n) {
      BehindReaches(segs, n, s);
    }
  }

  lemma BehindReaches(segs: seq<Seg>, m: Range, s: nat)
    requires Short(segs) && Within(segs, m, s)
    ensures InReach(segs[s].hi, m)
  {
  }

  /** Blocks overlap neither each other nor any segment. */
  lemma BlocksApart(segs: seq<Seg>, mods: seq<Range>, mods': seq<Range>, n: nat, blocks: seq<nat>, made: seq<nat>)
    requires Gapped(segs) && Short(segs) && OneSegment(segs, mods) && Allocated(segs, mods, mods', n, blocks, made)
    ensures forall j, k :: 0 <= j < k < |blocks| ==>
              blocks[j] + MIN_MEM_SIZE <= blocks[k] || blocks[k] + MIN_MEM_SIZE <= blocks[j]
    ensures forall k, i :: 0 <= k < |blocks| && 0 <= i < |segs| ==>
              segs[i].hi <= blocks[k] || blocks[k] + MIN_MEM_SIZE <= segs[i].lo
  {
    forall j, k | 0 <= j < k < |blocks|
      ensures blocks[j] + MIN_MEM_SIZE <= blocks[k] || blocks[k] + MIN_MEM_SIZE <= blocks[j]
    {
      var s := MadeBehind(segs, mods, blocks, made, j);
      var t := MadeBehind(segs, mods, blocks, made, k);
      assert !InReach(blocks[j], mods[made[k]]);
      BehindApart(segs, s, t);
    }
    forall k, i | 0 <= k < |blocks| && 0 <= i < |segs|
      ensures segs[i].hi <= blocks[k] || blocks[k] + MIN_MEM_SIZE <= segs[i].lo
    {
      var s := MadeBehind(segs, mods, blocks, made, k);
      assert s + 1 < |segs| ==> segs[s + 1].lo >= segs[s].hi + MIN_MEM_SIZE;
    }
  }

  /** So the blocks are what installing needs: apart, in memory, and clear of any code that lies
      in a segment. */
  lemma PlacedForHooks(segs: seq<Seg>, mods: seq<Range>, mods': seq<Range>, n: nat, blocks: seq<nat>, made: seq<nat>,
                       size: nat, i: nat, a: nat, len: nat)
    requires Gapped(segs) && Short(segs) && OneSegment(segs, mods) && Allocated(segs, mods, mods', n, blocks, made)
    requires PagedSegs(segs) && forall s :: 0 <= s < |segs| ==> segs[s].hi + MIN_MEM_SIZE <= size
    requires i < |segs| && segs[i].lo <= a && a + len <= segs[i].hi
    ensures Separate(blocks, size) && Clear(blocks, a, len)
  {
    BlocksApart(segs, mods, mods', n, blocks, made);
    forall k | 0 <= k < |blocks|
      ensures MIN_MEM_SIZE <= blocks[k] && blocks[k] + MIN_MEM_SIZE <= size && blocks[k] % MIN_MEM_SIZE == 0
    {
      var s := MadeBehind(segs, mods, blocks, made, k);
      PagesApart(segs[s].lo, segs[s].hi);
    }
  }

  lemma BehindApart(segs: seq<Seg>, s: nat, t: nat)
    requires Gapped(segs) && s < |segs| && t < |segs| && s != t && RoomBehind(segs, s) && RoomBehind(segs, t)
    ensures segs[s].hi + MIN_MEM_SIZE <= segs[t].hi || segs[t].hi + MIN_MEM_SIZE <= segs[s].hi
  {
    if s < t {
      assert segs[s + 1].lo <= segs[t].lo;
    } else {
      assert segs[t + 1].lo <= segs[s].lo;
    }
  }

  /** Two ranges of addresses meet. */
  predicate Overlap(a: nat, n: nat, l: Line) { a < l.hi && l.lo < a + n }

  /** A block behind a segment of the lines before k overlaps none of the lines, if the segment is
      not the last or the lines from k on leave a gap. */
  lemma MissesLines(lines: seq<Line>, k: nat, s: nat, j: nat)
    requires Sorted(lines) && Paged(lines) && k <= |lines| && s < |Joined(lines[..k])| && j < |lines|
    requires s + 1 < |Joined(lines[..k])| || k == |lines| || lines[k - 1].hi != lines[k].lo
    ensures RoomBehind(Joined(lines[..k]), s)
    ensures !Overlap(Joined(lines[..k])[s].hi, MIN_MEM_SIZE, lines[j])
  {
    hide Joined, Covers, Sorted, Paged, Overlap;
    var before := lines[..k];
    SortedPrefix(lines, k);
    PagedPrefix(lines, k);
    JoinedCovers(before);
    JoinedPaged(before);
    RoomByPages(Joined(before), s);
    if j < k {
      LineAt(lines, j);
      BlockMissesLine(Joined(before), lines, k, s, j);
    } else {
      BlockMissesLater(Joined(before), lines, k, s, j);
    }
  }

  lemma PagedPrefix(lines: seq<Line>, k: nat)
    requires Paged(lines) && k <= |lines|
    ensures Paged(lines[..k])
  {
  }

  lemma LineAt(lines: seq<Line>, j: nat)
    requires Sorted(lines) && j < |lines|
    ensures lines[j].lo < lines[j].hi
  {
  }

  lemma BlockMissesLater(segs: seq<Seg>, lines: seq<Line>, k: nat, s: nat, j: nat)
    requires Sorted(lines) && Paged(lines) && 0 < k <= j < |lines| && Gapped(segs) && s < |segs| && RoomBehind(segs, s)
    requires segs[|segs| - 1].hi == lines[k - 1].hi && (s + 1 < |segs| || lines[k - 1].hi != lines[k].lo)
    ensures !Overlap(segs[s].hi, MIN_MEM_SIZE, lines[j])
  {
    var last := |segs| - 1;
    assert lines[k - 1].hi <= lines[k].lo <= lines[j].lo;
    if s < last {
      assert segs[s + 1].lo < segs[s + 1].hi <= segs[last].hi;
    } else {
      PagesApart(lines[k - 1].hi, lines[k].lo);
    }
  }

  /** Behind every segment kept there is room for a block, which overlaps no line of the map:
      whether or not the stack touches the line before it. */
  lemma BlocksMissMap(lines: seq<Line>, k: nat, s: nat, j: nat)
    requires Sorted(lines) && Paged(lines) && k + 1 < |lines| < MAX_NUM_SEG && Stack(lines[k])
    requires |Listed(lines[..k])| < MAX_NUM_LIB && forall i :: 0 <= i < k ==> !Stack(lines[i])
    requires s < |ReadFrom(lines, 0, Map([], [])).segs| && j < |lines|
    ensures var segs := ReadFrom(lines, 0, Map([], [])).segs;
            RoomBehind(segs, s) && !Overlap(segs[s].hi, MIN_MEM_SIZE, lines[j])
  {
    hide Listed, ReadFrom, Joined, Join, Covers, Gapped, Overlap;
    StackEndsMap(lines, k);
    MissesLines(lines, k, s, j);
  }

  /** And so in a map without a stack line. */
  lemma BlocksMissWholeMap(lines: seq<Line>, s: nat, j: nat)
    requires Sorted(lines) && Paged(lines) && 0 < |lines| < MAX_NUM_SEG
    requires |Listed(lines[..|lines| - 1])| < MAX_NUM_LIB
    requires forall i :: 0 <= i && i + 1 < |lines| ==> !Stack(lines[i])
    requires s < |ReadFrom(lines, 0, Map([], [])).segs| && j < |lines|
    ensures var segs := ReadFrom(lines, 0, Map([], [])).segs;
            RoomBehind(segs, s) && !Overlap(segs[s].hi, MIN_MEM_SIZE, lines[j])
  {
    hide Listed, ReadFrom, Joined, Join, Covers, Gapped, Overlap;
    WholeJoined(lines);
    assert lines[..|lines|] == lines;
    MissesLines(lines, |lines|, s, j);
  }

  lemma BlockMissesLine(segs: seq<Seg>, lines: seq<Line>, k: nat, s: nat, j: nat)
    requires j < k <= |lines| && Gapped(segs) && Covers(segs, lines[..k]) && lines[j].lo < lines[j].hi
    requires s < |segs| && RoomBehind(segs, s)
    ensures !Overlap(segs[s].hi, MIN_MEM_SIZE, lines[j])
  {
    var a, l := segs[s].hi, lines[j];
    if Overlap(a, MIN_MEM_SIZE, l) {
      var x := if a < l.lo then l.lo else a;
      assert lines[..k][j].lo <= x < lines[..k][j].hi;
      assert InLines(lines[..k], x) && InSegs(segs, x);
      GapBehind(segs, s, x);
    }
  }

  lemma GapBehind(segs: seq<Seg>, s: nat, x: nat)
    requires Gapped(segs) && s < |segs| && RoomBehind(segs, s) && segs[s].hi <= x < segs[s].hi + MIN_MEM_SIZE
    ensures !InSegs(segs, x)
  {
    assert s + 1 < |segs| ==> segs[s + 1].lo >= segs[s].hi + MIN_MEM_SIZE;
  }

  // ----- which modules are served

  /** The first module with something to hook, in segment s; no module has a block yet. */
  ghost predicate FirstModule(segs: seq<Seg>, mods: seq<Range>, f: nat, s: nat) {
    && f < |mods| && !Nothing(mods[f]) && (forall j :: 0 <= j < f ==> Nothing(mods[j])) && Within(segs, mods[f], s)
    && forall j :: 0 <= j < |mods| ==> mods[j].blk == 0
  }

  /** The hooks of module i go to a block in reach. */
  predicate Served(mods: seq<Range>, mods': seq<Range>, blocks: seq<nat>, i: nat)
    requires i < |mods| == |mods'|
  {
    mods'[i].blk < |blocks| && InReach(blocks[mods'[i].blk], mods[i])
  }

  /** The first block is the one for the first module. */
  lemma FirstBlock(segs: seq<Seg>, mods: seq<Range>, mods': seq<Range>, blocks: seq<nat>, made: seq<nat>,
                   f: nat, s: nat)
    requires Gapped(segs) && Short(segs) && OneSegment(segs, mods) && FirstModule(segs, mods, f, s)
    requires Allocated(segs, mods, mods', |mods|, blocks, made)
    ensures |blocks| == |made| > 0 && made[0] == f && blocks[0] == segs[s].hi
  {
    hide InReach, Short;
    forall k | 0 <= k < |made| ensures made[k] >= f {
      assert Made(segs, mods, blocks, made, k);
    }
    assert f in made;
    var k :| 0 <= k < |made| && made[k] == f;
    assert k == 0;
    var t := MadeBehind(segs, mods, blocks, made, 0);
    assert s == t;
  }

  /** Up to the first module out of reach of the first block, that block serves all. It is given
      a block of its own, of which it is not told: it keeps block 0. */
  lemma FirstLost(segs: seq<Seg>, mods: seq<Range>, mods': seq<Range>, blocks: seq<nat>, made: seq<nat>,
                  f: nat, s: nat, i: nat)
    requires Gapped(segs) && Short(segs) && OneSegment(segs, mods) && FirstModule(segs, mods, f, s)
    requires Allocated(segs, mods, mods', |mods|, blocks, made)
    requires i < |mods| && !Nothing(mods[i]) && !InReach(segs[s].hi, mods[i])
    requires forall j :: 0 <= j < i && !Nothing(mods[j]) ==> InReach(segs[s].hi, mods[j])
    ensures i in made && mods'[i] == mods[i] && blocks != [] && blocks[0] == segs[s].hi
    ensures !Served(mods, mods', blocks, i)
  {
    FirstBlock(segs, mods, mods', blocks, made, f, s);
    hide InReach, Short, FirstSeg;
    if i !in made {
      AssignedEarlier(segs, mods, mods', blocks, made, i);
    }
  }

  /** A module told of a block was told of one made for an earlier module. */
  lemma AssignedEarlier(segs: seq<Seg>, mods: seq<Range>, mods': seq<Range>, blocks: seq<nat>, made: seq<nat>, i: nat)
    requires Allocated(segs, mods, mods', |mods|, blocks, made)
    requires i < |mods| && !Nothing(mods[i]) && i !in made
    ensures |mods'| == |mods| && |made| == |blocks|
    ensures var b := mods'[i].blk;
            && b < |blocks| && InReach(blocks[b], mods[i]) && made[b] < i
            && (b > 0 ==> !Nothing(mods[made[b]]) && !InReach(blocks[0], mods[made[b]]))
  {
    hide InReach, FirstSeg;
    var b := mods'[i].blk;
    assert Made(segs, mods, blocks, made, b);
  }

  /** All hooks go to blocks in reach exactly if the block behind the first module's segment
      alone reaches every module: no module but the first is told of a block made for it. */
  lemma ReachedExactly(segs: seq<Seg>, mods: seq<Range>, mods': seq<Range>, blocks: seq<nat>, made: seq<nat>,
                       f: nat, s: nat)
    requires Gapped(segs) && Short(segs) && OneSegment(segs, mods) && FirstModule(segs, mods, f, s)
    requires Allocated(segs, mods, mods', |mods|, blocks, made)
    ensures |mods'| == |mods|
    ensures (forall i :: 0 <= i < |mods| && !Nothing(mods[i]) ==> Served(mods, mods', blocks, i)) <==>
            (forall i :: 0 <= i < |mods| && !Nothing(mods[i]) ==> InReach(segs[s].hi, mods[i]))
  {
    FirstBlock(segs, mods, mods', blocks, made, f, s);
    hide InReach, Short, FirstSeg;
    if forall i :: 0 <= i < |mods| && !Nothing(mods[i]) ==> InReach(segs[s].hi, mods[i]) {
      forall i | 0 <= i < |mods| && !Nothing(mods[i]) ensures Served(mods, mods', blocks, i) {
        if i in made {
          var k :| 0 <= k < |made| && made[k] == i;
          assert Made(segs, mods, blocks, made, k);
          assert k == 0;
        }
      }
    } else {
      var i := FirstOutOfReach(segs[s].hi, mods, |mods|);
      FirstLost(segs, mods, mods', blocks, made, f, s, i);
    }
  }

  lemma {:induction false} FirstOutOfReach(block: nat, mods: seq<Range>, n: nat) returns (i: nat)
    requires n <= |mods| && exists j :: 0 <= j < n && !Nothing(mods[j]) && !InReach(block, mods[j])
    ensures i < n && !Nothing(mods[i]) && !InReach(block, mods[i])
    ensures forall j :: 0 <= j < i && !Nothing(mods[j]) ==> InReach(block, mods[j])
  {
    hide InReach;
    if j :| 0 <= j < n - 1 && !Nothing(mods[j]) && !InReach(block, mods[j]) {
      i := FirstOutOfReach(block, mods, n - 1);
    } else {
      i := n - 1;
    }
  }

  /** More than 2 GB above or below a block. */
  predicate FarFrom(block: nat, m: Range) {
    block + MIN_MEM_SIZE + TWO31 <= m.min <= m.max || (m.min <= m.max && m.max + TWO31 < block)
  }

  /** For any map: when the first module out of reach of the first block is that far from it, no
      jump from its functions to a bounce in the block it is sent to fits 32 bits. */
  lemma SecondBlockLost(segs: seq<Seg>, mods: seq<Range>, mods': seq<Range>, blocks: seq<nat>, made: seq<nat>,
                        f: nat, s: nat, i: nat, slot: nat, org: nat)
    requires Gapped(segs) && Short(segs) && OneSegment(segs, mods) && FirstModule(segs, mods, f, s)
    requires Allocated(segs, mods, mods', |mods|, blocks, made)
    requires i < |mods| && !Nothing(mods[i]) && FarFrom(segs[s].hi, mods[i])
    requires forall j :: 0 <= j < i && !Nothing(mods[j]) ==> InReach(segs[s].hi, mods[j])
    requires mods[i].min <= org <= mods[i].max
    requires |mods'| == |mods| && mods'[i].blk < |blocks|
    requires blocks[mods'[i].blk] <= slot && slot + SLOT_SIZE <= blocks[mods'[i].blk] + MIN_MEM_SIZE
    ensures !Fits32(slot + BOUNCE_AT - org - 5)
  {
    assert !InReach(segs[s].hi, mods[i]);
    hide InReach, Allocated, OneSegment;
    FirstLost(segs, mods, mods', blocks, made, f, s, i);
    assert mods'[i].blk == 0;
  }

  /** In reach means that every displacement the hooks need fits: from the entry to the bounce,
      and from the trampoline back. */
  lemma DisplacementsFit(block: nat, m: Range, org: nat, slot: nat)
    requires InReach(block, m) && m.min <= org <= m.max && block <= slot && slot + SLOT_SIZE <= block + MIN_MEM_SIZE
    ensures Fits32(org - slot - 5) && Fits32(slot + BOUNCE_AT - org - 5)
  {
  }

  /** Such a map, and what the allocation makes of it. */
  lemma FarApartExists()
    ensures var segs := [Seg(0x400000, 0x500000), Seg(0x7f0000000000, 0x7f0000100000)];
            var mods := [Range(0x400100, 0x400200, 0), Range(0x7f0000000100, 0x7f0000000200, 0)];
            && Gapped(segs) && Short(segs) && OneSegment(segs, mods) && FirstModule(segs, mods, 0, 0)
            && FarFrom(segs[0].hi, mods[1]) && Allocated(segs, mods, mods, 2, [segs[0].hi, segs[1].hi], [0, 1])
  {
    var segs := [Seg(0x400000, 0x500000), Seg(0x7f0000000000, 0x7f0000100000)];
    var mods := [Range(0x400100, 0x400200, 0), Range(0x7f0000000100, 0x7f0000000200, 0)];
    var blocks, made: seq<nat> := [segs[0].hi, segs[1].hi], [0, 1];
    assert Within(segs, mods[0], 0) && Within(segs, mods[1], 1);
    forall k | 0 <= k < 2 ensures Made(segs, mods, blocks, made, k) {
      assert FirstSeg(segs, Mid(mods[k]), k) && RoomBehind(segs, k) && blocks[k] == segs[k].hi;
    }
    hide Made;
    assert made[0] == 0 && made[1] == 1;
  }
}
