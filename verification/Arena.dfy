/** The arena hash table as a value: one sequence of elements holds the free list and every
    bucket chain, linked by indices. What an insertion and a deletion do to the links, and
    what that means for the stack of values under each key. */
module Arena {
  type Name = seq<bv8>

  const MAX_NAME_LEN: nat := 16

  /** The hash of a key; dict.c uses XXH64 with seed 0, and nothing below depends on which. */
  type Hasher = Name -> nat

  function Bucket(hash: Hasher, key: Name, size: nat): (h: nat)
    requires size > 0
    ensures h < size
  {
    hash(key) % size
  }

  datatype Elt = Elt(next: int, value: int, key: Name)

  datatype Arena = Arena(n: int, firstAv: int, table: seq<int>, elts: seq<Elt>)

  /** The lists behind the links. owner says of every slot which list holds it: a bucket, or
      -1 for the free list. */
  datatype Shape = Shape(free: seq<int>, chains: seq<seq<int>>, owner: seq<int>)

  /** Index i of a chain, or the -1 that ends it. */
  function At(c: seq<int>, i: nat): int {
    if i < |c| then c[i] else -1
  }

  /** Following `next` from head visits exactly c and then ends. */
  ghost predicate Linked(elts: seq<Elt>, head: int, c: seq<int>) {
    && head == At(c, 0)
    && (forall i :: 0 <= i < |c| ==> 0 <= c[i] < |elts| && elts[c[i]].next == At(c, i + 1))
  }

  ghost predicate Distinct(c: seq<int>) {
    forall i, j :: 0 <= i < j < |c| ==> c[i] != c[j]
  }

  ghost predicate Owns(owner: seq<int>, id: int, c: seq<int>) {
    && Distinct(c)
    && (forall i :: 0 <= i < |c| ==> 0 <= c[i] < |owner| && owner[c[i]] == id)
    && (forall s :: 0 <= s < |owner| && owner[s] == id ==> s in c)
  }

  ghost function Live(owner: seq<int>): set<int> {
    set s | 0 <= s < |owner| && owner[s] != -1
  }

  /** Free chain and bucket chains together hold every slot exactly once. */
  ghost predicate Shaped(sh: Shape, size: nat) {
    && |sh.chains| == |sh.owner| == size
    && Owns(sh.owner, -1, sh.free)
    && (forall b :: 0 <= b < size ==> Owns(sh.owner, b, sh.chains[b]))
    && (forall s :: 0 <= s < size ==> -1 <= sh.owner[s] < size)
    && |Live(sh.owner)| + |sh.free| == size
  }

  /** The links spell out the shape, and n counts the slots in buckets. */
  ghost predicate Partition(a: Arena, sh: Shape) {
    && |a.table| == |a.elts| > 0
    && Shaped(sh, |a.elts|)
    && Linked(a.elts, a.firstAv, sh.free)
    && (forall b :: 0 <= b < |a.table| ==> Linked(a.elts, a.table[b], sh.chains[b]))
    && a.n == |Live(sh.owner)|
  }

  /** Every record sits in the bucket of its key. */
  ghost predicate Placed(hash: Hasher, a: Arena, sh: Shape)
    requires Partition(a, sh)
  {
    forall b, i :: 0 <= b < |a.table| && 0 <= i < |sh.chains[b]| ==>
      Bucket(hash, a.elts[sh.chains[b][i]].key, |a.table|) == b
  }

  /** The load test, n < 0.80 * size. */
  predicate BelowLoad(a: Arena) {
    5 * a.n < 4 * |a.table|
  }

  /** The values under `key` in a chain, most recent first. */
  ghost function Values(elts: seq<Elt>, c: seq<int>, key: Name): seq<int>
    requires forall i :: 0 <= i < |c| ==> 0 <= c[i] < |elts|
  {
    if c == [] then []
    else (if elts[c[0]].key == key then [elts[c[0]].value] else []) + Values(elts, c[1..], key)
  }

  ghost predicate WellFormed(hash: Hasher, a: Arena, sh: Shape) {
    Partition(a, sh) && Placed(hash, a, sh)
  }

  /** The abstract value: a stack of values for every key. */
  ghost function Stack(hash: Hasher, a: Arena, sh: Shape, key: Name): seq<int>
    requires Partition(a, sh)
  {
    Values(a.elts, sh.chains[Bucket(hash, key, |a.table|)], key)
  }

  /** From (a, sh) to (a', sh') the stack of `key` gains `top`, every other stack stays. */
  ghost predicate Pushed(hash: Hasher, a: Arena, sh: Shape, key: Name, top: seq<int>, a': Arena, sh': Shape) {
    && Partition(a, sh) && Partition(a', sh')
    && forall k :: Stack(hash, a', sh', k) == (if k == key then top else []) + Stack(hash, a, sh, k)
  }

  // ----- creation

  /** What DictCreate sets up: empty buckets, all elements on the free chain in order. */
  predicate Created(a: Arena, size: nat) {
    && a.n == 0 && a.firstAv == 0 && |a.table| == |a.elts| == size
    && (forall b :: 0 <= b < size ==> a.table[b] == -1)
    && (forall i :: 0 <= i < size ==> a.elts[i].next == if i + 1 < size then i + 1 else -1)
  }

  function CreatedShape(size: nat): (sh: Shape)
    ensures |sh.free| == |sh.chains| == |sh.owner| == size
    ensures forall i :: 0 <= i < size ==> sh.free[i] == i && sh.chains[i] == [] && sh.owner[i] == -1
  {
    Shape(seq(size, i => i), seq(size, _ => []), seq(size, _ => -1))
  }

  lemma CreatedIsPartition(a: Arena, size: nat)
    requires size > 0 && Created(a, size)
    ensures Partition(a, CreatedShape(size)) && BelowLoad(a)
  {
    var sh := CreatedShape(size);
    hide CreatedShape;
    assert Live(sh.owner) == {};
    assert Owns(sh.owner, -1, sh.free) by {
      forall s | 0 <= s < size ensures s in sh.free { assert sh.free[s] == s; }
    }
  }

  // ----- insertion

  function Inserted(a: Arena, h: nat, key: Name, value: int): Arena
    requires 0 <= a.firstAv < |a.elts| && h < |a.table|
  {
    Arena(a.n + 1, a.elts[a.firstAv].next, a.table[h := a.firstAv],
          a.elts[a.firstAv := Elt(a.table[h], value, key)])
  }

  function InsertedShape(sh: Shape, h: nat): Shape
    requires sh.free != [] && h < |sh.chains| && 0 <= sh.free[0] < |sh.owner|
  {
    Shape(sh.free[1..], sh.chains[h := [sh.free[0]] + sh.chains[h]], sh.owner[sh.free[0] := h])
  }

  /** Below the load limit the free list cannot be empty. */
  lemma FreeSlotLeft(a: Arena, sh: Shape)
    requires Partition(a, sh) && BelowLoad(a)
    ensures sh.free != [] && a.firstAv == sh.free[0] && 0 <= a.firstAv < |a.elts|
  {
  }

  lemma Sizes(a: Arena, sh: Shape)
    requires Partition(a, sh)
    ensures |sh.chains| == |sh.owner| == |a.elts| == |a.table| > 0
    ensures sh.free != [] ==> a.firstAv == sh.free[0] && 0 <= a.firstAv < |a.elts|
  {
  }

  /** Taking the first slot of a list. */
  lemma OwnsTail(owner: seq<int>, id: int, c: seq<int>, h: int)
    requires Owns(owner, id, c) && c != [] && h != id
    ensures Owns(owner[c[0] := h], id, c[1..])
  {
    var owner' := owner[c[0] := h];
    forall s | 0 <= s < |owner'| && owner'[s] == id ensures s in c[1..] {
      assert s in c;
    }
  }

  /** Putting a slot of another list in front. */
  lemma OwnsFront(owner: seq<int>, id: int, c: seq<int>, slot: int)
    requires Owns(owner, id, c) && 0 <= slot < |owner| && owner[slot] != id
    ensures Owns(owner[slot := id], id, [slot] + c)
  {
    var owner' := owner[slot := id];
    forall s | 0 <= s < |owner'| && owner'[s] == id ensures s in [slot] + c {
      assert s == slot || s in c;
    }
  }

  lemma OwnsFrame(owner: seq<int>, id: int, c: seq<int>, slot: int, h: int)
    requires Owns(owner, id, c) && 0 <= slot < |owner| && owner[slot] != id && h != id
    ensures Owns(owner[slot := h], id, c)
  {
  }

  lemma InsertShaped(sh: Shape, size: nat, h: nat)
    requires Shaped(sh, size) && sh.free != [] && h < size
    ensures Shaped(InsertedShape(sh, h), size)
    ensures |Live(InsertedShape(sh, h).owner)| == |Live(sh.owner)| + 1
  {
    var slot, sh' := sh.free[0], InsertedShape(sh, h);
    assert 0 <= slot < size && sh.owner[slot] == -1;
    assert Live(sh'.owner) == Live(sh.owner) + {slot};
    hide Live, Owns;
    OwnsTail(sh.owner, -1, sh.free, h);
    OwnsFront(sh.owner, h, sh.chains[h], slot);
    forall b | 0 <= b < size ensures Owns(sh'.owner, b, sh'.chains[b]) {
      if b != h {
        OwnsFrame(sh.owner, b, sh.chains[b], slot, h);
      }
    }
  }

  /** A list that avoids the one element written stays linked. */
  lemma LinkedFrame(elts: seq<Elt>, head: int, c: seq<int>, slot: int, e: Elt)
    requires Linked(elts, head, c) && 0 <= slot < |elts|
    requires forall i :: 0 <= i < |c| ==> c[i] != slot
    ensures Linked(elts[slot := e], head, c)
  {
  }

  /** The slots of one list are in no other. */
  lemma ListsApart(owner: seq<int>, id: int, c: seq<int>, id': int, c': seq<int>, s: int)
    requires Owns(owner, id, c) && Owns(owner, id', c') && id != id' && s in c
    ensures forall i :: 0 <= i < |c'| ==> c'[i] != s
  {
  }

  lemma InsertFree(a: Arena, sh: Shape, e: Elt)
    requires Linked(a.elts, a.firstAv, sh.free) && Distinct(sh.free) && sh.free != []
    ensures 0 <= a.firstAv < |a.elts|
    ensures Linked(a.elts[a.firstAv := e], a.elts[a.firstAv].next, sh.free[1..])
  {
  }

  /** A bucket chain after the insertion, with or without the new slot in front. */
  lemma InsertChain(a: Arena, sh: Shape, b: nat, e: Elt)
    requires Partition(a, sh) && sh.free != [] && b < |a.table|
    ensures 0 <= a.firstAv < |a.elts|
    ensures Linked(a.elts[a.firstAv := e], a.table[b], sh.chains[b])
    ensures e.next == a.table[b] ==> Linked(a.elts[a.firstAv := e], a.firstAv, [a.firstAv] + sh.chains[b])
  {
    ListsApart(sh.owner, -1, sh.free, b, sh.chains[b], a.firstAv);
    LinkedFrame(a.elts, a.table[b], sh.chains[b], a.firstAv, e);
  }

  lemma InsertKeepsPartition(a: Arena, sh: Shape, h: nat, key: Name, value: int)
    requires Partition(a, sh) && sh.free != [] && h < |a.table|
    ensures 0 <= a.firstAv < |a.elts|
    ensures Partition(Inserted(a, h, key, value), InsertedShape(sh, h))
  {
    var e := Elt(a.table[h], value, key);
    var a', sh' := Inserted(a, h, key, value), InsertedShape(sh, h);
    InsertShaped(sh, |a.elts|, h);
    InsertFree(a, sh, e);
    forall b | 0 <= b < |a.table|
      ensures Linked(a'.elts, a'.table[b], sh'.chains[b])
    {
      hide Linked, Partition, Shaped;
      InsertChain(a, sh, b, e);
    }
    hide Linked, Shaped;
  }

  // ----- deletion

  /** Unlinks `slot` from bucket h, where prev is its predecessor or -1, and frees it. */
  function Unlinked(a: Arena, h: nat, prev: int, slot: int): Arena
    requires h < |a.table| && 0 <= slot < |a.elts| && -1 <= prev < |a.elts|
  {
    var after := a.elts[slot].next;
    var table := if prev == -1 then a.table[h := after] else a.table;
    var elts := if prev == -1 then a.elts else a.elts[prev := a.elts[prev].(next := after)];
    Arena(a.n - 1, slot, table, elts[slot := elts[slot].(next := a.firstAv)])
  }

  function Without(c: seq<int>, i: nat): (w: seq<int>)
    requires i < |c|
    ensures |w| == |c| - 1
    ensures forall j :: 0 <= j < |w| ==> w[j] == c[if j < i then j else j + 1]
  {
    c[..i] + c[i + 1..]
  }

  function DeletedShape(sh: Shape, h: nat, i: nat): Shape
    requires h < |sh.chains| && i < |sh.chains[h]| && 0 <= sh.chains[h][i] < |sh.owner|
  {
    var c := sh.chains[h];
    Shape([c[i]] + sh.free, sh.chains[h := Without(c, i)], sh.owner[c[i] := -1])
  }

  lemma OwnsWithout(owner: seq<int>, id: int, c: seq<int>, i: nat)
    requires Owns(owner, id, c) && id != -1 && i < |c|
    ensures Owns(owner[c[i] := -1], id, Without(c, i))
  {
    hide Without;
    var w, slot := Without(c, i), c[i];
    var owner' := owner[slot := -1];
    forall s | 0 <= s < |owner| && owner'[s] == id
      ensures s in w
    {
      assert s in c;
      var k :| 0 <= k < |c| && c[k] == s;
      assert w[if k < i then k else k - 1] == s;
    }
    assert forall j :: 0 <= j < |w| ==> w[j] != slot;
  }

  lemma DeleteShaped(sh: Shape, size: nat, h: nat, i: nat)
    requires Shaped(sh, size) && h < size && i < |sh.chains[h]|
    ensures Shaped(DeletedShape(sh, h, i), size)
    ensures |Live(DeletedShape(sh, h, i).owner)| == |Live(sh.owner)| - 1
  {
    hide Without;
    var sh' := DeletedShape(sh, h, i);
    var slot := sh.chains[h][i];
    assert Owns(sh.owner, h, sh.chains[h]);
    assert Live(sh'.owner) == Live(sh.owner) - {slot};
    forall s | 0 <= s < size && sh'.owner[s] == -1 ensures s in sh'.free {
      assert s == slot || s in sh.free;
    }
    OwnsWithout(sh.owner, h, sh.chains[h], i);
    forall b | 0 <= b < size && b != h ensures Owns(sh'.owner, b, sh'.chains[b]) {
      assert Owns(sh.owner, b, sh.chains[b]);
    }
  }

  /** The elements with prev's link led past slot. */
  function Bypassed(elts: seq<Elt>, prev: int, slot: int): seq<Elt>
    requires 0 <= slot < |elts| && -1 <= prev < |elts|
  {
    if prev == -1 then elts else elts[prev := elts[prev].(next := elts[slot].next)]
  }

  function Pred(c: seq<int>, i: nat): int
    requires i < |c|
  {
    if i == 0 then -1 else c[i - 1]
  }

  /** The chain of the deleted slot, relinked around it. */
  lemma BypassLinks(elts: seq<Elt>, c: seq<int>, i: nat)
    requires i < |c| && Linked(elts, At(c, 0), c) && Distinct(c)
    ensures Linked(Bypassed(elts, Pred(c, i), c[i]), At(Without(c, i), 0), Without(c, i))
  {
    hide Without;
    var w, elts' := Without(c, i), Bypassed(elts, Pred(c, i), c[i]);
    forall j | 0 <= j < |w|
      ensures 0 <= w[j] < |elts'| && elts'[w[j]].next == At(w, j + 1)
    {
      var k := if j < i then j else j + 1;
      assert w[j] == c[k];
      if k + 1 != i {
        assert elts'[c[k]] == elts[c[k]];
      }
    }
  }

  /** The links after the deletion, in terms of the bypass. */
  lemma UnlinkedElts(a: Arena, h: nat, prev: int, slot: int)
    requires h < |a.table| && 0 <= slot < |a.elts| && -1 <= prev < |a.elts|
    ensures var elts' := Unlinked(a, h, prev, slot).elts;
            elts' == Bypassed(a.elts, prev, slot)[slot := elts'[slot]] && elts'[slot].next == a.firstAv
  {
  }

  lemma DeleteOwnBucket(a: Arena, c: seq<int>, h: nat, i: nat)
    requires h < |a.table| && i < |c| && Linked(a.elts, a.table[h], c) && Distinct(c)
    ensures var a' := Unlinked(a, h, Pred(c, i), c[i]); Linked(a'.elts, a'.table[h], Without(c, i))
  {
    hide Without;
    var slot, prev, w := c[i], Pred(c, i), Without(c, i);
    var a' := Unlinked(a, h, prev, slot);
    UnlinkedElts(a, h, prev, slot);
    BypassLinks(a.elts, c, i);
    LinkedFrame(Bypassed(a.elts, prev, slot), At(w, 0), w, slot, a'.elts[slot]);
    if i > 0 {
      assert w[0] == c[0];
    } else if |c| > 1 {
      assert w[0] == c[1];
    }
  }

  /** A list that avoids both slots touched stays linked. */
  lemma DeleteFrame(a: Arena, h: nat, head: int, c: seq<int>, prev: int, slot: int)
    requires Linked(a.elts, head, c)
    requires h < |a.table| && 0 <= slot < |a.elts| && -1 <= prev < |a.elts|
    requires forall i :: 0 <= i < |c| ==> c[i] != slot && c[i] != prev
    ensures Linked(Unlinked(a, h, prev, slot).elts, head, c)
  {
  }

  lemma DeleteGrowsFree(a: Arena, h: nat, free: seq<int>, prev: int, slot: int)
    requires Linked(a.elts, a.firstAv, free)
    requires h < |a.table| && 0 <= slot < |a.elts| && -1 <= prev < |a.elts|
    requires forall i :: 0 <= i < |free| ==> free[i] != slot && free[i] != prev
    ensures Linked(Unlinked(a, h, prev, slot).elts, slot, [slot] + free)
  {
    DeleteFrame(a, h, a.firstAv, free, prev, slot);
    UnlinkedElts(a, h, prev, slot);
  }

  lemma DeleteKeepsPartition(a: Arena, sh: Shape, h: nat, i: nat)
    requires Partition(a, sh) && h < |a.table| && i < |sh.chains[h]|
    ensures 0 <= sh.chains[h][i] < |a.elts| && -1 <= Pred(sh.chains[h], i) < |a.elts|
    ensures Partition(Unlinked(a, h, Pred(sh.chains[h], i), sh.chains[h][i]), DeletedShape(sh, h, i))
  {
    hide Without, Linked, Owns, Live;
    var c := sh.chains[h];
    ChainCells(a, sh, h);
    var slot, prev := c[i], Pred(c, i);
    assert (prev == -1 || prev in c) && slot in c;
    var a', sh' := Unlinked(a, h, prev, slot), DeletedShape(sh, h, i);
    DeleteShaped(sh, |a.elts|, h, i);
    DeleteOwnBucketOf(a, sh, h, i);
    forall b | 0 <= b < |a.table| && b != h
      ensures Linked(a'.elts, a'.table[b], sh'.chains[b])
    {
      DeleteElsewhere(a, sh, h, prev, slot, b, sh.chains[b], a.table[b]);
    }
    DeleteElsewhere(a, sh, h, prev, slot, -1, sh.free, a.firstAv);
  }

  lemma DeleteOwnBucketOf(a: Arena, sh: Shape, h: nat, i: nat)
    requires Partition(a, sh) && h < |a.table| && i < |sh.chains[h]|
    ensures 0 <= sh.chains[h][i] < |a.elts| && -1 <= Pred(sh.chains[h], i) < |a.elts|
    ensures var a' := Unlinked(a, h, Pred(sh.chains[h], i), sh.chains[h][i]);
            Linked(a'.elts, a'.table[h], Without(sh.chains[h], i))
  {
    hide Without;
    assert Linked(a.elts, a.table[h], sh.chains[h]) && Owns(sh.owner, h, sh.chains[h]);
    DeleteOwnBucket(a, sh.chains[h], h, i);
  }

  lemma DeleteElsewhere(a: Arena, sh: Shape, h: nat, prev: int, slot: int, id: int, c: seq<int>, head: int)
    requires Partition(a, sh) && h < |a.table|
    requires slot in sh.chains[h] && (prev == -1 || prev in sh.chains[h])
    requires 0 <= slot < |a.elts| && -1 <= prev < |a.elts|
    requires id != h && Linked(a.elts, head, c) && Owns(sh.owner, id, c)
    ensures Linked(Unlinked(a, h, prev, slot).elts, head, c)
    ensures head == a.firstAv ==> Linked(Unlinked(a, h, prev, slot).elts, slot, [slot] + c)
  {
    assert Owns(sh.owner, h, sh.chains[h]);
    ListsApart(sh.owner, h, sh.chains[h], id, c, slot);
    if prev != -1 {
      ListsApart(sh.owner, h, sh.chains[h], id, c, prev);
    }
    DeleteFrame(a, h, head, c, prev, slot);
    if head == a.firstAv {
      DeleteGrowsFree(a, h, c, prev, slot);
    }
  }

  /** The lists are restored as well, if the slot was free. */
  lemma DeleteUndoesInsertShape(sh: Shape, h: nat)
    requires sh.free != [] && h < |sh.chains| && 0 <= sh.free[0] < |sh.owner| && sh.owner[sh.free[0]] == -1
    ensures DeletedShape(InsertedShape(sh, h), h, 0) == sh
  {
    var sh' := DeletedShape(InsertedShape(sh, h), h, 0);
    assert Without([sh.free[0]] + sh.chains[h], 0) == sh.chains[h];
    assert sh'.chains == sh.chains;
    assert sh'.owner == sh.owner;
    assert sh'.free == sh.free;
  }

  /** Deleting what was just inserted restores n, the free list head, every bucket head and
      every link; only the freed slot keeps the record's bytes. */
  lemma DeleteUndoesInsert(a: Arena, h: nat, key: Name, value: int)
    requires 0 <= a.firstAv < |a.elts| && h < |a.table|
    ensures Unlinked(Inserted(a, h, key, value), h, -1, a.firstAv) ==
            a.(elts := a.elts[a.firstAv := Elt(a.elts[a.firstAv].next, value, key)])
  {
    var slot := a.firstAv;
    var b := Unlinked(Inserted(a, h, key, value), h, -1, slot);
    assert b.table == a.table;
    assert b.elts == a.elts[slot := Elt(a.elts[slot].next, value, key)];
  }

  // ----- the stacks

  lemma {:induction false} ValuesFrame(elts: seq<Elt>, elts': seq<Elt>, c: seq<int>, key: Name)
    requires forall i :: 0 <= i < |c| ==> 0 <= c[i] < |elts| && c[i] < |elts'|
    requires forall i :: 0 <= i < |c| ==>
               elts[c[i]].key == elts'[c[i]].key && elts[c[i]].value == elts'[c[i]].value
    ensures Values(elts, c, key) == Values(elts', c, key)
  {
    if c != [] {
      ValuesFrame(elts, elts', c[1..], key);
    }
  }

  lemma {:induction false} ValuesAppend(elts: seq<Elt>, a: seq<int>, b: seq<int>, key: Name)
    requires forall i :: 0 <= i < |a| ==> 0 <= a[i] < |elts|
    requires forall i :: 0 <= i < |b| ==> 0 <= b[i] < |elts|
    ensures Values(elts, a + b, key) == Values(elts, a, key) + Values(elts, b, key)
  {
    if a == [] {
      assert a + b == b;
    } else {
      assert (a + b)[0] == a[0] && (a + b)[1..] == a[1..] + b;
      ValuesAppend(elts, a[1..], b, key);
      var first := if elts[a[0]].key == key then [elts[a[0]].value] else [];
      Regroup(first, Values(elts, a[1..], key), Values(elts, b, key));
    }
  }

  lemma Regroup<T>(x: seq<T>, y: seq<T>, z: seq<T>)
    ensures x + (y + z) == (x + y) + z
  {
  }

  lemma {:induction false} ValuesOfOthers(elts: seq<Elt>, c: seq<int>, key: Name)
    requires forall i :: 0 <= i < |c| ==> 0 <= c[i] < |elts| && elts[c[i]].key != key
    ensures Values(elts, c, key) == []
  {
    if c != [] {
      ValuesOfOthers(elts, c[1..], key);
    }
  }

  lemma PushValues(elts: seq<Elt>, slot: int, e: Elt, c: seq<int>, k: Name)
    requires 0 <= slot < |elts|
    requires forall i :: 0 <= i < |c| ==> 0 <= c[i] < |elts| && c[i] != slot
    ensures Values(elts[slot := e], c, k) == Values(elts, c, k)
    ensures Values(elts[slot := e], [slot] + c, k) == (if k == e.key then [e.value] else []) + Values(elts, c, k)
  {
    ValuesFrame(elts, elts[slot := e], c, k);
    assert ([slot] + c)[1..] == c;
  }

  /** Insertion pushes on the stack of its key, in whichever bucket is looked at. */
  lemma InsertPushes(a: Arena, sh: Shape, h: nat, key: Name, value: int, b: nat, k: Name)
    requires Partition(a, sh) && sh.free != [] && h < |a.table| && b < |a.table|
    requires k == key ==> b == h
    ensures Partition(Inserted(a, h, key, value), InsertedShape(sh, h))
    ensures Values(Inserted(a, h, key, value).elts, InsertedShape(sh, h).chains[b], k) ==
            (if k == key then [value] else []) + Values(a.elts, sh.chains[b], k)
  {
    InsertKeepsPartition(a, sh, h, key, value);
    var c := sh.chains[b];
    assert Owns(sh.owner, -1, sh.free) && Owns(sh.owner, b, c) && Linked(a.elts, a.table[b], c);
    assert sh.owner[sh.free[0]] == -1 && forall i :: 0 <= i < |c| ==> c[i] != a.firstAv;
    hide Partition, Linked, Shaped, Owns, Live, Values;
    PushValues(a.elts, a.firstAv, Elt(a.table[h], value, key), c, k);
  }

  /** Dropping the first match from a chain pops the stack of its key and no other. */
  lemma {:induction false} PopValues(elts: seq<Elt>, elts': seq<Elt>, c: seq<int>, i: nat, k: Name)
    requires |elts| == |elts'| && i < |c|
    requires forall s :: 0 <= s < |elts| ==> elts'[s].key == elts[s].key && elts'[s].value == elts[s].value
    requires forall j :: 0 <= j < |c| ==> 0 <= c[j] < |elts|
    requires forall j :: 0 <= j < i ==> elts[c[j]].key != elts[c[i]].key
    ensures Values(elts, c, k) ==
            (if k == elts[c[i]].key then [elts[c[i]].value] else []) + Values(elts', Without(c, i), k)
  {
    hide Values, Without;
    ValuesFrame(elts, elts', Without(c, i), k);
    ValuesAround(elts, c, i, k);
    ValuesOfOthers(elts, c[..i], elts[c[i]].key);
  }

  /** Deleting the first match pops the stack of the key and leaves the others alone. */
  lemma DeletePops(a: Arena, sh: Shape, h: nat, i: nat, b: nat, k: Name)
    requires Partition(a, sh) && h < |a.table| && b < |a.table| && i < |sh.chains[h]|
    requires var c := sh.chains[h]; forall j :: 0 <= j < i ==> a.elts[c[j]].key != a.elts[c[i]].key
    requires k == a.elts[sh.chains[h][i]].key ==> b == h
    ensures Partition(Unlinked(a, h, Pred(sh.chains[h], i), sh.chains[h][i]), DeletedShape(sh, h, i))
    ensures var slot := sh.chains[h][i];
            Values(a.elts, sh.chains[b], k) ==
            (if k == a.elts[slot].key then [a.elts[slot].value] else []) +
            Values(Unlinked(a, h, Pred(sh.chains[h], i), slot).elts, DeletedShape(sh, h, i).chains[b], k)
  {
    hide Without, Unlinked, Values, Partition, Linked, Shaped, Owns, Live;
    DeleteKeepsPartition(a, sh, h, i);
    ChainCells(a, sh, h);
    ChainCells(a, sh, b);
    var c := sh.chains[h];
    var a' := Unlinked(a, h, Pred(c, i), c[i]);
    UnlinkedRecords(a, h, Pred(c, i), c[i]);
    if b == h {
      PopValues(a.elts, a'.elts, c, i, k);
    } else {
      ValuesFrame(a.elts, a'.elts, sh.chains[b], k);
    }
  }

  /** The cells of a chain are slots. */
  lemma ChainCells(a: Arena, sh: Shape, h: nat)
    requires Partition(a, sh) && h < |a.table|
    ensures |sh.chains| == |a.table| && forall j :: 0 <= j < |sh.chains[h]| ==> 0 <= sh.chains[h][j] < |a.elts|
  {
    assert Linked(a.elts, a.table[h], sh.chains[h]);
  }

  lemma UnlinkedRecords(a: Arena, h: nat, prev: int, slot: int)
    requires h < |a.table| && 0 <= slot < |a.elts| && -1 <= prev < |a.elts|
    ensures |Unlinked(a, h, prev, slot).table| == |a.table|
    ensures var elts' := Unlinked(a, h, prev, slot).elts;
            |elts'| == |a.elts| &&
            forall s :: 0 <= s < |elts'| ==> elts'[s].key == a.elts[s].key && elts'[s].value == a.elts[s].value
  {
  }

  lemma ValuesAround(elts: seq<Elt>, c: seq<int>, i: nat, k: Name)
    requires i < |c|
    requires forall j :: 0 <= j < |c| ==> 0 <= c[j] < |elts|
    ensures Values(elts, c, k) ==
            Values(elts, c[..i], k) + (if elts[c[i]].key == k then [elts[c[i]].value] else []) +
            Values(elts, c[i + 1..], k)
    ensures Values(elts, Without(c, i), k) == Values(elts, c[..i], k) + Values(elts, c[i + 1..], k)
  {
    assert c == c[..i] + c[i..];
    ValuesAppend(elts, c[..i], c[i..], k);
    ValuesAppend(elts, c[..i], c[i + 1..], k);
    assert c[i..][1..] == c[i + 1..];
  }
}
