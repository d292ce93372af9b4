/** dict.c: the table in place, each operation proved against what it does to the links and to
    the stack of values under every key. */
module Dict {
  import opened Arena

  /** In an empty bucket DictDelete indexes elt_list[-1]; that access is OutOfBounds. */
  datatype DeleteOutcome = Removed | NoSuchRecord | OutOfBounds

  class Table {
    var n: int
    var firstAv: int
    const size: nat
    const hash: Hasher
    const table: array<int>
    const elts: array<Elt>
    ghost var sh: Shape

    ghost function Value(): Arena
      reads this, table, elts
    {
      Arena(n, firstAv, table[..], elts[..])
    }

    ghost predicate Valid()
      reads this, table, elts
    {
      && table.Length == elts.Length == |sh.chains| == size > 0
      && WellFormed(hash, Value(), sh)
    }

    /** What every operation that did not end the process leaves behind. */
    ghost predicate Usable()
      reads this, table, elts
    {
      Valid() && BelowLoad(Value())
    }

    ghost function StackOf(key: Name): seq<int>
      requires Valid()
      reads this, table, elts
    {
      Stack(hash, Value(), sh, key)
    }

    /** DictCreate with a size. */
    constructor (nSize: nat, hash: Hasher)
      requires nSize > 0
      ensures Usable() && fresh(table) && fresh(elts) && this.hash == hash
      ensures size == nSize && Created(Value(), nSize) && sh == CreatedShape(nSize)
      ensures forall k :: StackOf(k) == []
    {
      size := nSize;
      this.hash := hash;
      n := 0;
      table := new int[nSize];
      elts := new Elt[nSize];
      firstAv := 0;
      sh := CreatedShape(nSize);
      new;
      hide Partition, CreatedShape;
      for i := 0 to size
        modifies table
        invariant forall b :: 0 <= b < i ==> table[b] == -1
      {
        table[i] := -1;
      }
      for i := 0 to size
        modifies elts
        invariant forall j :: 0 <= j < i ==> elts[j].next == j + 1
      {
        elts[i] := elts[i].(next := i + 1);
      }
      elts[size - 1] := elts[size - 1].(next := -1);
      CreatedIsPartition(Value(), nSize);
    }

    /** DictInsert; `full` stands for the exit(1) of the load test, made after the insertion.
        A key of MAX_NAME_LEN characters or more would overrun its element. */
    method Insert(key: Name, value: int) returns (slot: int, full: bool)
      requires Usable() && |key| < MAX_NAME_LEN
      modifies this, table, elts
      ensures Valid() && (full <==> !Usable())
      ensures slot == old(firstAv) && n == old(n) + 1
      ensures InsertedBy(old(Value()), old(sh), Bucket(hash, key, size), key, value, Value(), sh)
      ensures Pushed(hash, old(Value()), old(sh), key, [value], Value(), sh)
    {
      hide Partition, Placed, Bucket, Pushed;
      var h := Bucket(hash, key, size);
      ghost var a, was := Value(), sh;
      FreeSlotLeft(a, was);
      Sizes(a, was);
      slot := firstAv;
      elts[slot] := elts[slot].(key := key, value := value);
      firstAv := elts[slot].next;
      elts[slot] := elts[slot].(next := table[h]);
      table[h] := slot;
      n := n + 1;
      sh := InsertedShape(was, h);
      assert Value() == Inserted(a, h, key, value);
      InsertStep(hash, a, was, key, value, Value(), sh);
      full := 5 * n >= 4 * size;
    }

    /** DictInsertAuto: the value is the slot itself. */
    method InsertAuto(key: Name) returns (slot: int, full: bool)
      requires Usable() && |key| < MAX_NAME_LEN
      modifies this, table, elts
      ensures Valid() && (full <==> !Usable())
      ensures slot == old(firstAv) && n == old(n) + 1
      ensures InsertedBy(old(Value()), old(sh), Bucket(hash, key, size), key, slot, Value(), sh)
      ensures Pushed(hash, old(Value()), old(sh), key, [slot], Value(), sh)
    {
      slot, full := Insert(key, firstAv);
    }

    /** DictSearch: the value inserted last under the key, or -1. */
    method Search(key: Name) returns (r: int)
      requires Valid()
      ensures r == if StackOf(key) == [] then -1 else StackOf(key)[0]
    {
      hide Bucket, Partition, Placed, Values;
      var h := Bucket(hash, key, size);
      ghost var a, c := Value(), sh.chains[h];
      if n == 0 {
        EmptyTable(a, sh, h);
        ChainStep(a, sh, h, 0, key);
        return -1;
      }
      ChainStep(a, sh, h, 0, key);
      var idx := table[h];
      if idx == -1 {
        return -1;
      }
      ghost var i := 0;
      while true
        invariant i < |c| && idx == c[i] && 0 <= idx < size
        invariant StackOf(key) == ValuesFrom(a, sh, h, i, key)
        decreases |c| - i
      {
        ChainStep(a, sh, h, i, key);
        if elts[idx].key == key {
          return elts[idx].value;
        }
        idx := elts[idx].next;
        i := i + 1;
        ChainStep(a, sh, h, i, key);
        if idx == -1 {
          return -1;
        }
      }
    }

    /** The link updates both returns of DictDelete make after a match. */
    method Relink(h: nat, prev: int, slot: int)
      requires h < table.Length && 0 <= slot < elts.Length && -1 <= prev < elts.Length
      modifies this`n, this`firstAv, table, elts
      ensures Value() == Unlinked(old(Value()), h, prev, slot)
    {
      if prev == -1 {
        table[h] := elts[slot].next;
      } else {
        elts[prev] := elts[prev].(next := elts[slot].next);
      }
      elts[slot] := elts[slot].(next := firstAv);
      firstAv := slot;
      n := n - 1;
    }

    /** DictDelete: unlinks the record inserted last under the key, at position i. */
    method Delete(key: Name) returns (outcome: DeleteOutcome, ghost i: nat)
      requires Valid()
      modifies this, table, elts
      ensures Valid()
      ensures outcome == OutOfBounds <==> old(table[Bucket(hash, key, size)]) == -1
      ensures outcome == Removed <==> old(StackOf(key)) != []
      ensures outcome == Removed ==>
                && DeletedAt(old(Value()), old(sh), Bucket(hash, key, size), key, i, Value(), sh)
                && Pushed(hash, Value(), sh, key, old(StackOf(key))[..1], old(Value()), old(sh))
      ensures outcome != Removed ==> Value() == old(Value()) && sh == old(sh)
    {
      hide Partition, Placed, Values, Pushed, Unlinked, DeletedShape, DeletedAt, Walking, FirstUnder;
      var h := Bucket(hash, key, size);
      hide Bucket;
      i := 0;
      ghost var a, was := Value(), sh;
      ChainStep(a, was, h, 0, key);
      var idx := table[h];
      if idx == -1 {
        return OutOfBounds, i;
      }
      WalkStart(a, was, h, key);
      if elts[idx].key == key {
        DeleteStep(hash, a, was, h, key, 0);
        Relink(h, -1, idx);
        sh := DeletedShape(was, h, 0);
        return Removed, i;
      }
      var next := elts[idx].next;
      while next != -1
        invariant Value() == a && sh == was
        invariant Walking(a, was, h, key, i, idx, next) && i < |was.chains[h]|
        invariant 0 <= idx < size && -1 <= next < size
        invariant Stack(hash, a, was, key) == ValuesFrom(a, was, h, i + 1, key)
        decreases |was.chains[h]| - i
      {
        WalkOn(a, was, h, key, i, idx, next);
        ChainStep(a, was, h, i + 1, key);
        if elts[next].key == key {
          DeleteStep(hash, a, was, h, key, i + 1);
          Relink(h, idx, next);
          sh := DeletedShape(was, h, i + 1);
          i := i + 1;
          return Removed, i;
        }
        idx := next;
        next := elts[idx].next;
        i := i + 1;
      }
      WalkEnd(a, was, h, key, i, idx);
      ChainStep(a, was, h, i + 1, key);
      outcome := NoSuchRecord;
    }
  }

  /** In a table just created every deletion is out of bounds. */
  method DeleteInNew(nSize: nat, hash: Hasher, key: Name) returns (outcome: DeleteOutcome)
    requires nSize > 0
    ensures outcome == OutOfBounds
  {
    hide Partition, Stack, Pushed, InsertedBy, DeletedAt;
    var t := new Table(nSize, hash);
    ghost var i;
    assert t.table[Bucket(hash, key, nSize)] == t.Value().table[Bucket(hash, key, nSize)];
    outcome, i := t.Delete(key);
  }

  /** Nothing up to position i of the chain has the key; idx sits there and next follows. */
  ghost predicate Walking(a: Arena, sh: Shape, h: nat, key: Name, i: nat, idx: int, next: int) {
    && h < |sh.chains| && i < |sh.chains[h]|
    && var c := sh.chains[h];
    && idx == c[i] && next == At(c, i + 1)
    && 0 <= idx < |a.elts| && -1 <= next < |a.elts|
    && forall j :: 0 <= j <= i ==> 0 <= c[j] < |a.elts| && a.elts[c[j]].key != key
  }

  /** Position i is the first of bucket h's chain under the key. */
  ghost predicate FirstUnder(a: Arena, sh: Shape, h: nat, key: Name, i: nat) {
    && h < |sh.chains| && i < |sh.chains[h]|
    && var c := sh.chains[h];
    && 0 <= c[i] < |a.elts| && a.elts[c[i]].key == key
    && forall j :: 0 <= j < i ==> 0 <= c[j] < |a.elts| && a.elts[c[j]].key != key
  }

  lemma WalkStart(a: Arena, sh: Shape, h: nat, key: Name)
    requires Partition(a, sh) && h < |a.table| && |sh.chains| == |a.table| && sh.chains[h] != []
    ensures var idx := sh.chains[h][0];
            && 0 <= idx < |a.elts| && -1 <= a.elts[idx].next < |a.elts|
            && if a.elts[idx].key == key then FirstUnder(a, sh, h, key, 0)
               else Walking(a, sh, h, key, 0, idx, a.elts[idx].next)
  {
    ChainOf(a, sh, h);
  }

  lemma WalkOn(a: Arena, sh: Shape, h: nat, key: Name, i: nat, idx: int, next: int)
    requires Partition(a, sh) && h < |a.table| && Walking(a, sh, h, key, i, idx, next) && next != -1
    ensures h < |sh.chains| && i + 1 < |sh.chains[h]| && sh.chains[h][i + 1] == next
    ensures Pred(sh.chains[h], i + 1) == idx && -1 <= a.elts[next].next < |a.elts|
    ensures if a.elts[next].key == key then FirstUnder(a, sh, h, key, i + 1)
            else Walking(a, sh, h, key, i + 1, next, a.elts[next].next)
  {
    ChainOf(a, sh, h);
  }

  lemma WalkEnd(a: Arena, sh: Shape, h: nat, key: Name, i: nat, idx: int)
    requires Partition(a, sh) && h < |a.table| && Walking(a, sh, h, key, i, idx, -1)
    ensures i + 1 == |sh.chains[h]|
  {
    ChainOf(a, sh, h);
  }

  lemma ChainOf(a: Arena, sh: Shape, h: nat)
    requires Partition(a, sh) && h < |a.table|
    ensures |sh.chains| == |a.table| == |a.elts| == |sh.owner|
    ensures Linked(a.elts, a.table[h], sh.chains[h]) && Owns(sh.owner, h, sh.chains[h])
  {
  }

  /** What is left to search from position i of the chain of bucket h on. */
  ghost function ValuesFrom(a: Arena, sh: Shape, h: nat, i: nat, key: Name): seq<int>
    requires Partition(a, sh) && h < |a.table| && i <= |sh.chains[h]|
  {
    ChainOf(a, sh, h);
    Values(a.elts, sh.chains[h][i..], key)
  }

  /** One step along a chain: the slot at position i, its link, and what it adds. */
  lemma ChainStep(a: Arena, sh: Shape, h: nat, i: nat, key: Name)
    requires Partition(a, sh) && h < |a.table| && i <= |sh.chains[h]|
    ensures var c := sh.chains[h];
            if i == |c| then ValuesFrom(a, sh, h, i, key) == []
            else
              && 0 <= c[i] < |a.elts| && a.elts[c[i]].next == At(c, i + 1)
              && ValuesFrom(a, sh, h, i, key) ==
                 (if a.elts[c[i]].key == key then [a.elts[c[i]].value] else []) + ValuesFrom(a, sh, h, i + 1, key)
    ensures a.table[h] == At(sh.chains[h], 0)
    ensures ValuesFrom(a, sh, h, 0, key) == Values(a.elts, sh.chains[h], key)
  {
    ChainOf(a, sh, h);
    var c := sh.chains[h];
    assert c[0..] == c;
    if i < |c| {
      assert c[i..][1..] == c[i + 1..];
    }
  }

  lemma EmptyTable(a: Arena, sh: Shape, h: nat)
    requires Partition(a, sh) && h < |a.table| && a.n == 0
    ensures sh.chains[h] == []
  {
    ChainOf(a, sh, h);
    assert sh.chains[h] != [] ==> sh.chains[h][0] in Live(sh.owner);
  }

  ghost predicate InsertedBy(a: Arena, sh: Shape, h: nat, key: Name, value: int, a': Arena, sh': Shape) {
    && 0 <= a.firstAv < |a.elts| && h < |a.table| && sh.free != [] && a.firstAv == sh.free[0]
    && |sh.chains| == |sh.owner| == |a.elts| == |a.table|
    && a' == Inserted(a, h, key, value) && sh' == InsertedShape(sh, h)
  }

  /** (a', sh') is (a, sh) without position i, the first record under `key` in bucket h. */
  ghost predicate DeletedAt(a: Arena, sh: Shape, h: nat, key: Name, i: nat, a': Arena, sh': Shape) {
    && FirstUnder(a, sh, h, key, i) && h < |a.table| && |sh.owner| == |a.elts|
    && a' == Unlinked(a, h, Pred(sh.chains[h], i), sh.chains[h][i]) && sh' == DeletedShape(sh, h, i)
  }

  lemma InsertKeepsPlaced(hash: Hasher, a: Arena, sh: Shape, key: Name, value: int)
    requires Partition(a, sh) && Placed(hash, a, sh) && sh.free != []
    ensures 0 <= a.firstAv < |a.elts|
    ensures var h := Bucket(hash, key, |a.table|);
            Partition(Inserted(a, h, key, value), InsertedShape(sh, h)) &&
            Placed(hash, Inserted(a, h, key, value), InsertedShape(sh, h))
  {
    hide Bucket;
    var h := Bucket(hash, key, |a.table|);
    InsertKeepsPartition(a, sh, h, key, value);
    var a', sh' := Inserted(a, h, key, value), InsertedShape(sh, h);
    forall b, i | 0 <= b < |a.table| && 0 <= i < |sh'.chains[b]|
      ensures Bucket(hash, a'.elts[sh'.chains[b][i]].key, |a.table|) == b
    {
      var s := sh'.chains[b][i];
      ChainOf(a', sh', b);
      ChainOf(a, sh, b);
      if s != a.firstAv {
        assert s == sh.chains[b][if b == h then i - 1 else i];
      }
    }
  }

  lemma DeleteKeepsPlaced(hash: Hasher, a: Arena, sh: Shape, h: nat, i: nat)
    requires Partition(a, sh) && Placed(hash, a, sh) && h < |a.table| && i < |sh.chains[h]|
    ensures 0 <= sh.chains[h][i] < |a.elts| && -1 <= Pred(sh.chains[h], i) < |a.elts|
    ensures var a', sh' := Unlinked(a, h, Pred(sh.chains[h], i), sh.chains[h][i]), DeletedShape(sh, h, i);
            Partition(a', sh') && Placed(hash, a', sh')
  {
    hide Bucket, Without, Unlinked, Partition, Owns;
    DeleteKeepsPartition(a, sh, h, i);
    ChainOf(a, sh, h);
    var c := sh.chains[h];
    UnlinkedRecords(a, h, Pred(c, i), c[i]);
    var a', sh' := Unlinked(a, h, Pred(c, i), c[i]), DeletedShape(sh, h, i);
    ChainOf(a', sh', h);
    forall b, j | 0 <= b < |a.table| && 0 <= j < |sh'.chains[b]|
      ensures 0 <= sh'.chains[b][j] < |a'.elts|
      ensures Bucket(hash, a'.elts[sh'.chains[b][j]].key, |a.table|) == b
    {
      ChainOf(a, sh, b);
      ChainOf(a', sh', b);
      assert sh'.chains[b][j] == sh.chains[b][if b == h && j >= i then j + 1 else j];
    }
  }

  /** What the insertion owes. */
  lemma InsertStep(hash: Hasher, a: Arena, sh: Shape, key: Name, value: int, a': Arena, sh': Shape)
    requires WellFormed(hash, a, sh)
    requires InsertedBy(a, sh, Bucket(hash, key, |a.table|), key, value, a', sh')
    ensures WellFormed(hash, a', sh') && Pushed(hash, a, sh, key, [value], a', sh')
  {
    hide Bucket, Partition, Placed, Values;
    InsertKeepsPlaced(hash, a, sh, key, value);
    forall k
      ensures Stack(hash, a', sh', k) == (if k == key then [value] else []) + Stack(hash, a, sh, k)
    {
      InsertPushes(a, sh, Bucket(hash, key, |a.table|), key, value, Bucket(hash, k, |a.table|), k);
    }
  }

  /** What the deletion owes. */
  lemma DeleteStep(hash: Hasher, a: Arena, sh: Shape, h: nat, key: Name, i: nat)
    requires WellFormed(hash, a, sh) && h == Bucket(hash, key, |a.table|)
    requires FirstUnder(a, sh, h, key, i)
    ensures var slot, prev := sh.chains[h][i], Pred(sh.chains[h], i);
            && -1 <= prev < |a.elts| && |sh.owner| == |a.elts|
            && var a', sh' := Unlinked(a, h, prev, slot), DeletedShape(sh, h, i);
            && WellFormed(hash, a', sh') && DeletedAt(a, sh, h, key, i, a', sh')
            && Pushed(hash, a', sh', key, [a.elts[slot].value], a, sh)
            && |a'.table| == |a.table| && |a'.elts| == |a.elts| && |sh'.chains| == |sh.chains|
            && Stack(hash, a, sh, key)[..1] == [a.elts[slot].value]
  {
    hide Bucket, Without, Partition, Placed, Values, Unlinked, DeletedShape;
    Sizes(a, sh);
    DeleteKeepsPlaced(hash, a, sh, h, i);
    var slot, prev := sh.chains[h][i], Pred(sh.chains[h], i);
    var a', sh' := Unlinked(a, h, prev, slot), DeletedShape(sh, h, i);
    UnlinkedRecords(a, h, prev, slot);
    Sizes(a', sh');
    forall k
      ensures Stack(hash, a, sh, k) ==
              (if k == key then [a.elts[slot].value] else []) + Stack(hash, a', sh', k)
    {
      DeletePops(a, sh, h, i, Bucket(hash, k, |a.table|), k);
    }
    assert Stack(hash, a, sh, key) == [a.elts[slot].value] + Stack(hash, a', sh', key);
  }

  /** Inserting and then deleting the same key restores every link, every list and every
      counter; only the bytes of the record stay behind in the freed slot. */
  lemma InsertDeleteRoundTrip(a: Arena, sh: Shape, h: nat, key: Name, value: int, a1: Arena, sh1: Shape,
                              i: nat, a2: Arena, sh2: Shape)
    requires Partition(a, sh)
    requires InsertedBy(a, sh, h, key, value, a1, sh1) && DeletedAt(a1, sh1, h, key, i, a2, sh2)
    ensures a2.n == a.n && a2.firstAv == a.firstAv && a2.table == a.table
    ensures a2.elts == a.elts[a.firstAv := Elt(a.elts[a.firstAv].next, value, key)]
    ensures sh2 == sh
  {
    FreeIsUnowned(a, sh);
    assert sh1.chains[h][0] == a.firstAv && i == 0;
    hide Partition, Unlinked, DeletedShape;
    DeleteUndoesInsert(a, h, key, value);
    DeleteUndoesInsertShape(sh, h);
  }

  lemma FreeIsUnowned(a: Arena, sh: Shape)
    requires Partition(a, sh) && sh.free != []
    ensures 0 <= sh.free[0] < |sh.owner| && sh.owner[sh.free[0]] == -1
  {
  }

  // ----- whole runs

  datatype Op = Put(key: Name, value: int) | Drop(key: Name)

  /** The reference: one stack of values per key. */
  function Expected(ops: seq<Op>, key: Name): seq<int> {
    if ops == [] then []
    else
      var before := Expected(ops[..|ops| - 1], key);
      match ops[|ops| - 1]
      case Put(k, v) => if k == key then [v] + before else before
      case Drop(k) => if k == key && before != [] then before[1..] else before
  }

  /** Every stack is the one the reference has after ops. */
  ghost predicate Refines(hash: Hasher, a: Arena, sh: Shape, ops: seq<Op>) {
    Partition(a, sh) && forall k :: Stack(hash, a, sh, k) == Expected(ops, k)
  }

  lemma RefinesPut(hash: Hasher, a: Arena, sh: Shape, ops: seq<Op>, op: Op, a': Arena, sh': Shape)
    requires Refines(hash, a, sh, ops) && op.Put? && Pushed(hash, a, sh, op.key, [op.value], a', sh')
    ensures Refines(hash, a', sh', ops + [op])
  {
    hide Partition, Stack;
    assert (ops + [op])[..|ops|] == ops;
  }

  lemma RefinesDrop(hash: Hasher, a: Arena, sh: Shape, ops: seq<Op>, op: Op, a': Arena, sh': Shape)
    requires Refines(hash, a, sh, ops) && op.Drop?
    requires if Stack(hash, a, sh, op.key) == [] then a' == a && sh' == sh
             else Pushed(hash, a', sh', op.key, Stack(hash, a, sh, op.key)[..1], a, sh)
    ensures Refines(hash, a', sh', ops + [op])
  {
    hide Partition, Stack;
    assert (ops + [op])[..|ops|] == ops;
    forall k | Partition(a', sh')
      ensures Stack(hash, a', sh', k) == Expected(ops + [op], k)
    {
      var top := Stack(hash, a, sh, op.key)[..if Stack(hash, a, sh, op.key) == [] then 0 else 1];
      if k == op.key && top != [] {
        assert Stack(hash, a, sh, k) == top + Stack(hash, a', sh', k);
      }
    }
  }

  /** Any run of inserts and deletes, up to an exit or a delete in an empty bucket, keeps the
      partition and holds the reference stacks. */
  method Run(nSize: nat, hash: Hasher, ops: seq<Op>) returns (t: Table, done: nat)
    requires nSize > 0 && forall i :: 0 <= i < |ops| && ops[i].Put? ==> |ops[i].key| < MAX_NAME_LEN
    ensures t.hash == hash && t.size == nSize
    ensures done <= |ops| && t.Valid() && Refines(hash, t.Value(), t.sh, ops[..done])
    ensures t.Usable() && done < |ops| ==>
              ops[done].Drop? && t.table[Bucket(hash, ops[done].key, nSize)] == -1
    ensures !t.Usable() ==> done > 0 && ops[done - 1].Put?
  {
    hide Partition, Placed, Bucket, DeletedAt, InsertedBy, Refines, Pushed, Created, CreatedShape;
    t := new Table(nSize, hash);
    done := 0;
    Empty(hash, t.Value(), t.sh);
    assert ops[..0] == [];
    while done < |ops|
      invariant done <= |ops| && fresh(t) && fresh(t.table) && fresh(t.elts)
      invariant t.Usable() && t.hash == hash && t.size == nSize
      invariant Refines(hash, t.Value(), t.sh, ops[..done])
      decreases |ops| - done
    {
      var op := ops[done];
      ghost var a, sh := t.Value(), t.sh;
      assert ops[..done + 1] == ops[..done] + [op];
      match op {
        case Put(key, value) =>
          var slot, full := t.Insert(key, value);
          RefinesPut(hash, a, sh, ops[..done], op, t.Value(), t.sh);
          if full {
            done := done + 1;
            return;
          }
        case Drop(key) =>
          var outcome, i := t.Delete(key);
          if outcome == OutOfBounds {
            return;
          }
          StillBelowLoad(a, sh, Bucket(hash, key, nSize), key, i, t.Value(), t.sh);
          RefinesDrop(hash, a, sh, ops[..done], op, t.Value(), t.sh);
      }
      done := done + 1;
    }
  }

  lemma Empty(hash: Hasher, a: Arena, sh: Shape)
    requires Partition(a, sh) && forall k :: Stack(hash, a, sh, k) == []
    ensures Refines(hash, a, sh, [])
  {
  }

  lemma StillBelowLoad(a: Arena, sh: Shape, h: nat, key: Name, i: nat, a': Arena, sh': Shape)
    requires BelowLoad(a) && (a' == a || DeletedAt(a, sh, h, key, i, a', sh'))
    ensures BelowLoad(a')
  {
  }
}
