/** server.c: the host list file becomes a table from host name to rank. */
module RankTable {
  import opened Arena
  import Dict

  const NEWLINE: bv8 := 10

  /** The first newline at or after p, or the end. */
  function LineEnd(s: seq<bv8>, p: nat): (e: nat)
    requires p <= |s|
    ensures p <= e <= |s|
    ensures forall i :: p <= i < e ==> s[i] != 10
    ensures e < |s| ==> s[e] == 10
    decreases |s| - p
  {
    if p == |s| || s[p] == NEWLINE then p else LineEnd(s, p + 1)
  }

  /** The lines of the file from p on; text after the last newline is no line. */
  function Lines(s: seq<bv8>, p: nat): seq<Name>
    requires p <= |s|
    decreases |s| - p
  {
    var e := LineEnd(s, p);
    if e == |s| then [] else [s[p..e]] + Lines(s, e + 1)
  }

  function Newlines(s: seq<bv8>): nat {
    if s == [] then 0 else Newlines(s[..|s| - 1]) + (if s[|s| - 1] == NEWLINE then 1 else 0)
  }

  lemma {:induction false} NewlinesAppend(a: seq<bv8>, b: seq<bv8>)
    ensures Newlines(a + b) == Newlines(a) + Newlines(b)
  {
    if b == [] {
      assert a + b == a;
    } else {
      assert (a + b)[..|a + b| - 1] == a + b[..|b| - 1];
      NewlinesAppend(a, b[..|b| - 1]);
    }
  }

  lemma {:induction false} NoNewlines(s: seq<bv8>)
    requires forall i :: 0 <= i < |s| ==> s[i] != NEWLINE
    ensures Newlines(s) == 0
  {
    if s != [] {
      NoNewlines(s[..|s| - 1]);
    }
  }

  /** Counting newlines counts lines. */
  lemma {:induction false} LinesAreNewlines(s: seq<bv8>, p: nat)
    requires p <= |s|
    ensures |Lines(s, p)| == Newlines(s[p..])
    decreases |s| - p
  {
    var e := LineEnd(s, p);
    if e == |s| {
      assert s[p..] == s[p..e];
      NoNewlines(s[p..e]);
    } else {
      LinesAreNewlines(s, e + 1);
      NewlinesAround(s, p, e);
    }
  }

  lemma NewlinesAround(s: seq<bv8>, p: nat, e: nat)
    requires p <= e < |s| && s[e] == NEWLINE
    requires forall i :: p <= i < e ==> s[i] != NEWLINE
    ensures Newlines(s[p..]) == 1 + Newlines(s[e + 1..])
  {
    hide Newlines;
    var line, rest := s[p..e], s[e + 1..];
    assert s[p..] == (line + [NEWLINE]) + rest;
    NewlinesAppend(line + [NEWLINE], rest);
    NewlinesAppend(line, [NEWLINE]);
    NoNewlines(line);
    OneNewline();
  }

  lemma OneNewline()
    ensures Newlines([NEWLINE]) == 1
  {
    assert Newlines([NEWLINE][..0]) == 0;
  }

  /** The ranks inserted under a name, most recent first. */
  function Ranks(names: seq<Name>, name: Name): seq<int> {
    if names == [] then []
    else
      var last := |names| - 1;
      (if names[last] == name then [last] else []) + Ranks(names[..last], name)
  }

  lemma {:induction false} TopRank(names: seq<Name>, name: Name)
    ensures Ranks(names, name) == [] <==> name !in names
    ensures name in names ==>
              var r := Ranks(names, name)[0];
              0 <= r < |names| && names[r] == name && name !in names[r + 1..]
  {
    if names != [] {
      var last := |names| - 1;
      TopRank(names[..last], name);
      assert names == names[..last] + [names[last]];
      if names[last] != name && name in names {
        var r := Ranks(names[..last], name)[0];
        assert names[r + 1..] == names[..last][r + 1..] + [names[last]];
      }
    }
  }

  /** The table holds exactly the ranks of the names. */
  ghost predicate Holds(hash: Hasher, a: Arena, sh: Shape, names: seq<Name>) {
    Partition(a, sh) && forall k :: Stack(hash, a, sh, k) == Ranks(names, k)
  }

  lemma HoldsNext(hash: Hasher, a: Arena, sh: Shape, names: seq<Name>, name: Name, a': Arena, sh': Shape)
    requires Holds(hash, a, sh, names) && Pushed(hash, a, sh, name, [|names|], a', sh')
    ensures Holds(hash, a', sh', names + [name])
  {
    hide Partition, Stack;
    assert (names + [name])[..|names|] == names;
  }

  lemma HoldsNone(hash: Hasher, a: Arena, sh: Shape)
    requires Partition(a, sh) && forall k :: Stack(hash, a, sh, k) == []
    ensures Holds(hash, a, sh, [])
  {
  }

  /** What the first pass leaves: newlines become string terminators. */
  predicate Cut(s: seq<bv8>, b: seq<bv8>, n: nat)
    requires n <= |s| == |b|
  {
    forall i :: 0 <= i < |s| ==> b[i] == if i < n && s[i] == NEWLINE then 0 else s[i]
  }

  /** Read_Host_List. Every complete line, in order, gets its index as rank, and a table of
      twice as many slots never trips the full check. */
  method ReadHostList(pBuff: array<bv8>, hash: Hasher) returns (names: seq<Name>, t: Dict.Table?)
    requires forall i :: 0 <= i < pBuff.Length ==> pBuff[i] != 0
    requires forall i :: 0 <= i < |Lines(pBuff[..], 0)| ==> |Lines(pBuff[..], 0)[i]| < MAX_NAME_LEN
    modifies pBuff
    ensures names == Lines(old(pBuff[..]), 0)
    ensures t == null <==> names == []
    ensures t != null ==> fresh(t) && t.Usable() && t.size == 2 * |names| && t.hash == hash
    ensures t != null ==> Holds(hash, t.Value(), t.sh, names)
  {
    ghost var s := pBuff[..];
    var gsize := 0;
    for i := 0 to pBuff.Length
      invariant Cut(s, pBuff[..], i)
      invariant gsize == Newlines(s[..i])
    {
      assert s[..i + 1][..i] == s[..i];
      if pBuff[i] == NEWLINE {
        pBuff[i] := 0;
        gsize := gsize + 1;
      }
    }
    assert s[..|s|] == s && s[0..] == s;
    LinesAreNewlines(s, 0);
    names := [];
    if gsize == 0 {
      return names, null;
    }
    t, names := InsertLines(pBuff, s, gsize, hash);
  }

  /** strlen of the string starting at p. */
  method StrLen(pBuff: array<bv8>, p: nat, ghost s: seq<bv8>) returns (n: nat)
    requires |s| == pBuff.Length && Cut(s, pBuff[..], |s|) && p <= |s| && LineEnd(s, p) < |s|
    requires forall i :: 0 <= i < |s| ==> s[i] != 0
    ensures p + n == LineEnd(s, p) && pBuff[p..p + n] == s[p..p + n]
  {
    n := 0;
    while pBuff[p + n] != 0
      invariant p + n <= LineEnd(s, p)
      decreases |s| - p - n
    {
      assert pBuff[..][p + n] == pBuff[p + n];
      n := n + 1;
    }
    assert pBuff[..][p + n] == pBuff[p + n];
  }

  lemma NextLine(s: seq<bv8>, names: seq<Name>, p: nat)
    requires p <= |s| && Lines(s, 0) == names + Lines(s, p) && |names| < |Lines(s, 0)|
    ensures var e := LineEnd(s, p);
            e < |s| && Lines(s, 0)[|names|] == s[p..e] && Lines(s, 0) == names + [s[p..e]] + Lines(s, e + 1)
  {
  }

  /** The second pass: one insertion per line. */
  method InsertLines(pBuff: array<bv8>, ghost s: seq<bv8>, gsize: nat, hash: Hasher)
    returns (t: Dict.Table, names: seq<Name>)
    requires |s| == pBuff.Length && Cut(s, pBuff[..], |s|)
    requires forall i :: 0 <= i < |s| ==> s[i] != 0
    requires gsize == |Lines(s, 0)| > 0
    requires forall i :: 0 <= i < gsize ==> |Lines(s, 0)[i]| < MAX_NAME_LEN
    ensures names == Lines(s, 0)
    ensures fresh(t) && t.Usable() && t.size == 2 * gsize && t.hash == hash
    ensures Holds(hash, t.Value(), t.sh, names)
  {
    hide Partition, Placed, Bucket, Holds, Pushed, CreatedShape, Dict.InsertedBy, Lines, LineEnd;
    names := [];
    t := new Dict.Table(gsize * 2, hash);
    HoldsNone(hash, t.Value(), t.sh);
    var nodeIdx, pNewLine := 0, 0;
    while nodeIdx < gsize
      invariant fresh(t) && fresh(t.table) && fresh(t.elts)
      invariant t.Usable() && t.size == 2 * gsize && t.hash == hash && t.n == nodeIdx == |names| <= gsize
      invariant 0 <= pNewLine <= |s| && Lines(s, 0) == names + Lines(s, pNewLine)
      invariant Holds(hash, t.Value(), t.sh, names)
    {
      NextLine(s, names, pNewLine);
      var n := StrLen(pBuff, pNewLine, s);
      var name := pBuff[pNewLine..pNewLine + n];
      ghost var a, sh := t.Value(), t.sh;
      var slot, full := t.Insert(name, nodeIdx);
      HoldsNext(hash, a, sh, names, name, t.Value(), t.sh);
      assert !full;
      names := names + [name];
      pNewLine := pNewLine + n + 1;
      nodeIdx := nodeIdx + 1;
    }
    assert names == Lines(s, 0)[..nodeIdx];
  }

  /** The rank answered to a client: the last line with its name, or -1. */
  method Rank(t: Dict.Table, ghost names: seq<Name>, tagged: bool, name: Name) returns (rank: int)
    requires t.Valid() && Holds(t.hash, t.Value(), t.sh, names)
    ensures !tagged || name !in names ==> rank == -1
    ensures tagged && name in names ==>
              0 <= rank < |names| && names[rank] == name && name !in names[rank + 1..]
  {
    if !tagged {
      return -1;
    }
    TopRank(names, name);
    rank := t.Search(name);
  }
}
