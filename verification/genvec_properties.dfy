/** Properties of the generational slot map: the free list and the live
    count stay well formed under every operation, the store refines a map
    from live keys to values, slots are reused last-in first-out with a
    fresh generation, and a removed key never resolves again. */
module GenVecProperties {
  import opened GenVec

  /* ---------------------------------------------------------------------
     The free list under insert and remove
     --------------------------------------------------------------------- */

  /** Insert pops the head of the free chain; when the chain is empty it
      appends a slot and the sentinel moves one past it. */
  lemma InsertPopsFreeChain<T>(s: Store<T>, v: T, chain: seq<nat>)
    requires FreeChain(s.data, s.freeHead, chain)
    ensures Insert(s, v).Ok?
    ensures |chain| > 0 ==>
      && chain[0] < |s.data|
      && Insert(s, v).value.key == Key(chain[0], s.data[chain[0]].generation)
      && FreeChain(Insert(s, v).value.store.data, Insert(s, v).value.store.freeHead, chain[1..])
    ensures |chain| == 0 ==>
      && Insert(s, v).value.key == Key(|s.data|, 0)
      && FreeChain(Insert(s, v).value.store.data, Insert(s, v).value.store.freeHead, [])
  {
  }

  /** Removing a live key pushes its slot onto the front of the free chain. */
  lemma RemovePushesFreeChain<T>(s: Store<T>, k: Key, chain: seq<nat>)
    requires FreeChain(s.data, s.freeHead, chain)
    requires Live(s, k) && s.len > 0
    ensures Remove(s, k).Ok?
    ensures FreeChain(Remove(s, k).value.data, Remove(s, k).value.freeHead, [k.index] + chain)
  {
  }

  /** Insert issues a key that was not live and changes the view only by
      binding that key to the new value. */
  lemma ViewAfterInsert<T>(s: Store<T>, v: T)
    requires Insert(s, v).Ok?
    ensures Insert(s, v).value.key !in View(s)
    ensures View(Insert(s, v).value.store) == View(s)[Insert(s, v).value.key := v]
  {
    var r := Insert(s, v).value;
    var s', key := r.store, r.key;
    ViewIsLiveKeys(s, key);
    var m := View(s)[key := v];
    forall k | k in m || k in View(s')
      ensures k in m && k in View(s') && m[k] == View(s')[k]
    {
      ViewIsLiveKeys(s, k);
      ViewIsLiveKeys(s', k);
    }
  }

  /** Removing a live key drops exactly that key from the view. */
  lemma ViewAfterRemove<T>(s: Store<T>, k: Key)
    requires k.index < |s.data| && Live(s, k) && Remove(s, k).Ok?
    ensures View(Remove(s, k).value) == View(s) - {k}
  {
  }

  /** Insert into a valid store never panics, keeps the store valid, counts
      one more value, issues a key that was not live, and changes the view
      only by binding that key to the new value. */
  lemma InsertPreservesValid<T>(s: Store<T>, v: T)
    requires Valid(s)
    ensures Insert(s, v).Ok?
    ensures Valid(Insert(s, v).value.store)
    ensures Len(Insert(s, v).value.store) == Len(s) + 1
    ensures Insert(s, v).value.key !in View(s)
    ensures View(Insert(s, v).value.store) == View(s)[Insert(s, v).value.key := v]
  {
    var chain :| FreeChain(s.data, s.freeHead, chain);
    InsertPopsFreeChain(s, v, chain);
    var r := Insert(s, v).value;
    if |chain| > 0 {
      assert FreeChain(r.store.data, r.store.freeHead, chain[1..]);
    } else {
      assert FreeChain(r.store.data, r.store.freeHead, []);
    }
    OccupiedAfterInsert(s, v);
    ViewAfterInsert(s, v);
  }

  /** Insert occupies exactly one slot that was not occupied before. */
  lemma OccupiedAfterInsert<T>(s: Store<T>, v: T)
    requires Insert(s, v).Ok?
    ensures Insert(s, v).value.key.index !in OccupiedSlots(s.data)
    ensures OccupiedSlots(Insert(s, v).value.store.data) == OccupiedSlots(s.data) + {Insert(s, v).value.key.index}
  {
  }

  /** Removing a live key frees exactly its slot. */
  lemma OccupiedAfterRemove<T>(s: Store<T>, k: Key)
    requires Live(s, k) && Remove(s, k).Ok?
    ensures k.index in OccupiedSlots(s.data)
    ensures OccupiedSlots(Remove(s, k).value.data) == OccupiedSlots(s.data) - {k.index}
  {
  }

  /** Remove on a valid store never panics and keeps the store valid. On a
      live key it drops exactly that key from the view and counts one value
      fewer; on any other key it changes nothing. */
  lemma RemovePreservesValid<T>(s: Store<T>, k: Key)
    requires Valid(s) && k.index < |s.data|
    ensures Remove(s, k).Ok?
    ensures Valid(Remove(s, k).value)
    ensures View(Remove(s, k).value) == View(s) - {k}
    ensures k in View(s) ==> Len(Remove(s, k).value) == Len(s) - 1
    ensures k !in View(s) ==> Remove(s, k).value == s
  {
    var s' := Remove(s, k).value;
    ViewIsLiveKeys(s, k);
    if Live(s, k) {
      var chain :| FreeChain(s.data, s.freeHead, chain);
      assert k.index in OccupiedSlots(s.data);
      RemovePushesFreeChain(s, k, chain);
      OccupiedAfterRemove(s, k);
      ViewAfterRemove(s, k);
    } else {
      assert View(s) - {k} == View(s);
    }
  }

  /* ---------------------------------------------------------------------
     Observable behaviour of single operations
     --------------------------------------------------------------------- */

  /** With no free slot, insert appends a slot at index `|data|` holding
      the value with generation 0, and the free-list head moves to the new
      length. */
  lemma InsertFreshSlot<T>(s: Store<T>, v: T)
    requires s.freeHead >= |s.data|
    ensures Insert(s, v).Ok?
    ensures Insert(s, v).value.key == Key(|s.data|, 0)
    ensures Insert(s, v).value.store.data == s.data + [GenEntry(Occupied(v), 0)]
    ensures Insert(s, v).value.store.freeHead == |Insert(s, v).value.store.data|
    ensures Len(Insert(s, v).value.store) == Len(s) + 1
  {
  }

  /** After removing a live key, the next insert reuses its slot with the
      generation one past the key's, leaves that generation as it is, and
      the removed key stays dead while the new one resolves. */
  lemma SlotReuse<T>(s: Store<T>, k: Key, v: T)
    requires Valid(s) && Live(s, k)
    ensures Remove(s, k).Ok? && Insert(Remove(s, k).value, v).Ok?
    ensures Insert(Remove(s, k).value, v).value.key == Key(k.index, k.generation + 1)
    ensures Insert(Remove(s, k).value, v).value.store.data[k.index].generation == k.generation + 1
    ensures Get(Insert(Remove(s, k).value, v).value.store, k) == None
    ensures Get(Insert(Remove(s, k).value, v).value.store, Key(k.index, k.generation + 1)) == Some(v)
  {
  }

  /** A second remove of the same key is a no-op. */
  lemma RemoveIdempotent<T>(s: Store<T>, k: Key)
    requires k.index < |s.data| && Remove(s, k).Ok?
    ensures Remove(Remove(s, k).value, k) == Remove(s, k)
  {
  }

  /** Removing one key never changes what any other key resolves to. */
  lemma RemoveKeepsOtherKeys<T>(s: Store<T>, k: Key, other: Key)
    requires k.index < |s.data| && other.index < |s.data| && other != k
    requires Remove(s, k).Ok?
    ensures Get(Remove(s, k).value, other) == Get(s, other)
  {
  }

  /* ---------------------------------------------------------------------
     Sequences of operations
     --------------------------------------------------------------------- */

  /** One call a client can make on the store. */
  datatype Op<T> = InsertOp(value: T) | RemoveOp(key: Key)

  /** Applies one call; a remove whose key names a slot that was never
      allocated aborts, as indexing the Rust `Vec` out of bounds does. */
  function Step<T>(s: Store<T>, op: Op<T>): Result<Store<T>> {
    match op
    case InsertOp(v) =>
      (match Insert(s, v)
       case Ok(r) => Ok(r.store)
       case Panic(f) => Panic(f))
    case RemoveOp(k) =>
      if k.index < |s.data| then Remove(s, k) else Panic(IndexOutOfBounds)
  }

  /** Applies a sequence of calls, stopping at the first abort. */
  function Run<T>(s: Store<T>, ops: seq<Op<T>>): Result<Store<T>>
    decreases |ops|
  {
    if |ops| == 0 then Ok(s)
    else
      match Step(s, ops[0])
      case Ok(s1) => Run(s1, ops[1..])
      case Panic(f) => Panic(f)
  }

  /** `s'` is a later state of `s`: no slot has disappeared and no slot's
      generation has gone down. */
  ghost predicate Descends<T>(s: Store<T>, s': Store<T>) {
    && |s.data| <= |s'.data|
    && forall j :: 0 <= j < |s.data| ==> s.data[j].generation <= s'.data[j].generation
  }

  /** One call keeps a valid store valid, only fails on an unallocated
      index, and never lowers a generation. */
  lemma StepPreservesValid<T>(s: Store<T>, op: Op<T>)
    requires Valid(s)
    ensures Step(s, op).Panic? ==> Step(s, op).fault == IndexOutOfBounds
    ensures Step(s, op).Ok? ==> Valid(Step(s, op).value) && Descends(s, Step(s, op).value)
  {
    match op
    case InsertOp(v) => InsertPreservesValid(s, v);
    case RemoveOp(k) =>
      if k.index < |s.data| {
        RemovePreservesValid(s, k);
      }
  }

  /** From a valid store, any sequence of calls keeps the store valid and
      lowers no generation; the only abort is an out-of-range key, so the
      corrupt-free-list and length-underflow panics are unreachable. */
  lemma {:induction false} RunPreservesValid<T>(s: Store<T>, ops: seq<Op<T>>)
    requires Valid(s)
    ensures Run(s, ops).Panic? ==> Run(s, ops).fault == IndexOutOfBounds
    ensures Run(s, ops).Ok? ==> Valid(Run(s, ops).value) && Descends(s, Run(s, ops).value)
    decreases |ops|
  {
    if |ops| > 0 {
      StepPreservesValid(s, ops[0]);
      if Step(s, ops[0]).Ok? {
        var s1 := Step(s, ops[0]).value;
        RunPreservesValid(s1, ops[1..]);
      }
    }
  }

  /** Every store reachable from `New` by client calls is valid, and its
      cached length is the number of live keys. */
  lemma ReachableIsValid<T>(ops: seq<Op<T>>)
    ensures Run(New<T>(), ops).Ok? ==> Valid(Run(New<T>(), ops).value)
    ensures Run(New<T>(), ops).Ok? ==> Len(Run(New<T>(), ops).value) == |View(Run(New<T>(), ops).value)|
  {
    RunPreservesValid(New<T>(), ops);
    if Run(New<T>(), ops).Ok? {
      LenCountsLiveKeys(Run(New<T>(), ops).value);
    }
  }

  /** Once a key is removed it never resolves again, whatever calls follow. */
  lemma RemovedKeyStaysDead<T>(s: Store<T>, k: Key, ops: seq<Op<T>>)
    requires Valid(s) && Live(s, k)
    ensures Remove(s, k).Ok?
    ensures Run(Remove(s, k).value, ops).Ok? ==> !Live(Run(Remove(s, k).value, ops).value, k)
  {
    RemovePreservesValid(s, k);
    var s1 := Remove(s, k).value;
    RunPreservesValid(s1, ops);
  }

  /* ---------------------------------------------------------------------
     The repository's own test, as a sequence of calls
     --------------------------------------------------------------------- */

  /** Removes a live key and inserts again, as the test does twice. Right
      after the remove, the key resolves to nothing and the count is one
      less; the insert then takes the same slot with the next generation,
      the old key stays stale, the count is back where it was and every
      other slot is untouched. */
  method RemoveThenInsert<T>(s: Store<T>, k: Key, v: T) returns (mid: Store<T>, k': Key, s': Store<T>)
    requires Valid(s) && Live(s, k)
    ensures Remove(s, k).Ok? && mid == Remove(s, k).value
    ensures Valid(mid) && Len(mid) == Len(s) - 1 && Get(mid, k) == None
    ensures k' == Key(k.index, k.generation + 1)
    ensures Valid(s') && Len(s') == Len(s) && |s'.data| == |s.data|
    ensures Get(s', k) == None && Get(s', k') == Some(v)
    ensures forall j :: 0 <= j < |s.data| && j != k.index ==> s'.data[j] == s.data[j]
  {
    SlotReuse(s, k, v);
    RemovePreservesValid(s, k);
    mid := Remove(s, k).value;
    InsertPreservesValid(mid, v);
    var r := Insert(mid, v).value;
    k', s' := r.key, r.store;
  }

  /** An insert into a valid store with no free slot appends the value in a
      fresh slot with generation 0 and keeps the store valid. */
  method AppendOne<T>(s: Store<T>, v: T) returns (k: Key, s': Store<T>)
    requires Valid(s) && s.freeHead >= |s.data|
    ensures k == Key(|s.data|, 0)
    ensures s'.data == s.data + [GenEntry(Occupied(v), 0)] && s'.freeHead == |s'.data|
    ensures Valid(s') && s'.len == s.len + 1
  {
    InsertFreshSlot(s, v);
    InsertPreservesValid(s, v);
    var r := Insert(s, v).value;
    k, s' := r.key, r.store;
  }

  /** Three inserts into a new store append three slots with generation 0,
      each key resolving to its own value. */
  method InsertThree<T>(va: T, vb: T, vc: T) returns (a: Key, b: Key, c: Key, s: Store<T>)
    ensures a == Key(0, 0) && b == Key(1, 0) && c == Key(2, 0)
    ensures Valid(s) && Len(s) == 3 && |s.data| == 3
    ensures Get(s, a) == Some(va) && Get(s, b) == Some(vb) && Get(s, c) == Some(vc)
  {
    var s1, s2;
    a, s1 := AppendOne(New<T>(), va);
    b, s2 := AppendOne(s1, vb);
    c, s := AppendOne(s2, vc);
    assert s.data[0] == GenEntry(Occupied(va), 0);
    assert s.data[1] == GenEntry(Occupied(vb), 0);
    assert s.data[2] == GenEntry(Occupied(vc), 0);
  }

  /** Two rounds of remove-then-insert on one live key, as the test does:
      both new keys take the key's slot with the next two generations, and
      only the last one resolves. */
  method ReuseTwice<T>(s: Store<T>, k: Key, vd: T, ve: T)
    returns (afterRemove: Store<T>, d: Key, e: Key, s': Store<T>)
    requires Valid(s) && Live(s, k)
    ensures Remove(s, k).Ok? && afterRemove == Remove(s, k).value
    ensures k.index < |afterRemove.data| && Len(afterRemove) == Len(s) - 1 && Get(afterRemove, k) == None
    ensures d == Key(k.index, k.generation + 1) && e == Key(k.index, k.generation + 2)
    ensures Valid(s') && Len(s') == Len(s) && |s'.data| == |s.data|
    ensures Get(s', k) == None && Get(s', d) == None && Get(s', e) == Some(ve)
    ensures forall j :: 0 <= j < |s.data| && j != k.index ==> s'.data[j] == s.data[j]
  {
    var s1, mid;
    afterRemove, d, s1 := RemoveThenInsert(s, k, vd);
    mid, e, s' := RemoveThenInsert(s1, d, ve);
  }

  /** Three inserts, remove the first key, insert, remove that key, insert.
      Right after the inserts the three keys are distinct, resolve to their
      values and three values are stored; right
      after the first remove its key resolves to nothing and two values
      remain; the later keys reuse the first slot with new generations, and
      stale keys resolve to nothing. */
  method GenVecScenario<T>(va: T, vb: T, vc: T, vd: T, ve: T)
    returns (a: Key, b: Key, c: Key, d: Key, e: Key, afterInserts: Store<T>, afterRemove: Store<T>, s: Store<T>)
    ensures a.index != b.index && b.index != c.index && a.index != c.index
    ensures a.index < |afterInserts.data| && b.index < |afterInserts.data| && c.index < |afterInserts.data|
    ensures Len(afterInserts) == 3
    ensures Get(afterInserts, a) == Some(va) && Get(afterInserts, b) == Some(vb) && Get(afterInserts, c) == Some(vc)
    ensures Remove(afterInserts, a).Ok? && afterRemove == Remove(afterInserts, a).value
    ensures a.index < |afterRemove.data| && Len(afterRemove) == 2 && Get(afterRemove, a) == None
    ensures a.index == d.index == e.index
    ensures a.generation != d.generation && d.generation != e.generation && a.generation != e.generation
    ensures Valid(s) && Len(s) == 3
    ensures a.index < |s.data| && b.index < |s.data| && c.index < |s.data|
    ensures Get(s, a) == None && Get(s, d) == None && Get(s, e) == Some(ve)
    ensures Get(s, b) == Some(vb) && Get(s, c) == Some(vc)
  {
    a, b, c, afterInserts := InsertThree(va, vb, vc);
    afterRemove, d, e, s := ReuseTwice(afterInserts, a, vd, ve);
    assert s.data[1] == afterInserts.data[1] && s.data[2] == afterInserts.data[2];
  }
}
