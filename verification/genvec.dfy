/** A generational slot map.

    A `Store` hands out `Key`s (slot index plus generation) on insert. A key
    resolves to its value only while the slot at its index is occupied and
    still carries the key's generation. Freed slots are recycled through a
    singly-linked free list that is threaded through the slots themselves:
    a free slot records the index of the next free slot, and the chain ends
    at the sentinel index `|data|` ("append a new slot").

    Everything here is a pure function over immutable values; where the Rust
    `GenVec` updates itself in place, the functions here return the updated
    store.
 */
module GenVec {

  /** A handle: the slot index plus the generation the slot had when the
      value was stored in it. */
  datatype Key = Key(index: nat, generation: nat)

  /** The state of one slot: a link in the free list, or a live value. */
  datatype Entry<T> = Free(nextFree: nat) | Occupied(value: T)

  /** One slot of the backing sequence with its own generation counter. */
  datatype GenEntry<T> = GenEntry(entry: Entry<T>, generation: nat)

  /** The slot map: the slots, the head of the free list (the sentinel
      `|data|` when no slot is free) and the cached number of live values. */
  datatype Store<T> = Store(data: seq<GenEntry<T>>, freeHead: nat, len: nat)

  datatype Option<T> = None | Some(value: T)

  /** The ways an operation can abort instead of returning. */
  datatype Fault =
    | CorruptFreeList   // the free-list head names an occupied slot
    | LenUnderflow      // the live count would drop below zero
    | IndexOutOfBounds  // a key names a slot that was never allocated

  datatype Result<T> = Ok(value: T) | Panic(fault: Fault)

  /** What a successful insert yields: the updated store and the new key. */
  datatype Inserted<T> = Inserted(store: Store<T>, key: Key)

  /** `k` names a live value of `s`: its slot exists, is occupied, and still
      carries the key's generation. */
  predicate Live<T>(s: Store<T>, k: Key) {
    && k.index < |s.data|
    && s.data[k.index].entry.Occupied?
    && s.data[k.index].generation == k.generation
  }

  /** The indices of the occupied slots. */
  ghost function OccupiedSlots<T>(data: seq<GenEntry<T>>): set<nat> {
    set i | 0 <= i < |data| && data[i].entry.Occupied?
  }

  /** The abstract content of a store: every live key and the value it
      resolves to. */
  ghost function View<T>(s: Store<T>): map<Key, T> {
    map i | 0 <= i < |s.data| && s.data[i].entry.Occupied?
      :: Key(i, s.data[i].generation) := s.data[i].entry.value
  }

  /** The link stored in slot `i` when it is a free slot, and `None` when
      it is not. */
  function NextFree<T>(data: seq<GenEntry<T>>, i: nat): Option<nat> {
    if i < |data| && data[i].entry.Free? then Some(data[i].entry.nextFree) else None
  }

  /** The link that must follow position `i` of a chain: the next slot on
      the chain, or the sentinel after the last one. */
  function LinkAfter(chain: seq<nat>, i: nat, sentinel: nat): nat
    requires i < |chain|
  {
    if i + 1 < |chain| then chain[i + 1] else sentinel
  }

  /** `chain` is the sequence of slots visited by following `nextFree` links
      from `head`: each slot on it is free and links to the next one, the
      last link (or `head` itself, for an empty chain) is the sentinel
      `|data|`, no slot is visited twice, and every free slot of `data` lies
      on the chain. */
  ghost predicate FreeChain<T>(data: seq<GenEntry<T>>, head: nat, chain: seq<nat>) {
    && head == (if |chain| == 0 then |data| else chain[0])
    && (forall i :: 0 <= i < |chain| ==> NextFree(data, chain[i]) == Some(LinkAfter(chain, i, |data|)))
    && (forall i, j :: 0 <= i < j < |chain| ==> chain[i] != chain[j])
    && (forall j :: 0 <= j < |data| && data[j].entry.Free? ==> j in chain)
  }

  /** The representation invariant: the free list is well formed and the
      cached length counts the occupied slots. */
  ghost predicate Valid<T>(s: Store<T>) {
    && (exists chain :: FreeChain(s.data, s.freeHead, chain))
    && s.len == |OccupiedSlots(s.data)|
  }

  /** An empty store: no slots, the free-list head at the sentinel 0. */
  function New<T>(): (s: Store<T>)
    ensures Valid(s)
    ensures Len(s) == 0 && View(s) == map[]
  {
    assert FreeChain<T>([], 0, []);
    Store([], 0, 0)
  }

  /** Stores `v`, reusing the slot at the head of the free list when there
      is one and appending a fresh slot otherwise. */
  function Insert<T>(s: Store<T>, v: T): (r: Result<Inserted<T>>)
    ensures Valid(s) ==> r.Ok?
    ensures r.Ok? ==> Live(r.value.store, r.value.key) && Get(r.value.store, r.value.key) == Some(v)
    ensures r.Ok? ==> |r.value.store.data| >= |s.data|
    ensures r.Ok? ==> forall j :: 0 <= j < |s.data| ==> r.value.store.data[j].generation == s.data[j].generation
    ensures r.Ok? ==> forall j :: 0 <= j < |s.data| && j != r.value.key.index ==> r.value.store.data[j] == s.data[j]
  {
    if s.freeHead < |s.data| then
      var slot := s.data[s.freeHead];
      match slot.entry
      case Free(next) =>
        var key := Key(s.freeHead, slot.generation);
        var data := s.data[s.freeHead := GenEntry(Occupied(v), slot.generation)];
        Ok(Inserted(Store(data, next, s.len + 1), key))
      case Occupied(_) =>
        Panic(CorruptFreeList)
    else
      var key := Key(|s.data|, 0);
      var data := s.data + [GenEntry(Occupied(v), 0)];
      Ok(Inserted(Store(data, key.index + 1, s.len + 1), key))
  }

  /** Resolves `k` to its value, or `None` when the key is stale. */
  function Get<T>(s: Store<T>, k: Key): (r: Option<T>)
    requires k.index < |s.data|
    ensures r == (if k in View(s) then Some(View(s)[k]) else None)
  {
    if Live(s, k) then Some(s.data[k.index].entry.value) else None
  }

  /** Removes the value `k` names, if `k` is live: the slot's generation
      moves on and the slot becomes the new free-list head. A stale key is
      a no-op. */
  function Remove<T>(s: Store<T>, k: Key): (r: Result<Store<T>>)
    requires k.index < |s.data|
    ensures Valid(s) ==> r.Ok?
    ensures !Live(s, k) ==> r == Ok(s)
    ensures r.Ok? ==> |r.value.data| == |s.data| && Get(r.value, k) == None
    ensures r.Ok? ==> forall j :: 0 <= j < |s.data| && j != k.index ==> r.value.data[j] == s.data[j]
    ensures r.Ok? && Live(s, k) ==> r.value.data[k.index].generation == k.generation + 1
  {
    var slot := s.data[k.index];
    if slot.entry.Occupied? then
      if slot.generation != k.generation then
        Ok(s)
      else
        assert k.index in OccupiedSlots(s.data);
        if s.len == 0 then
          Panic(LenUnderflow)
        else
          var data := s.data[k.index := GenEntry(Free(s.freeHead), slot.generation + 1)];
          Ok(Store(data, k.index, s.len - 1))
    else
      Ok(s)
  }

  /** The number of live values, as cached by the store: in a valid store,
      exactly the number of live keys. */
  function Len<T>(s: Store<T>): (r: nat)
    ensures Valid(s) ==> r == |View(s)| == |OccupiedSlots(s.data)|
  {
    assert Valid(s) ==> s.len == |View(s)| by {
      if Valid(s) {
        LenCountsLiveKeys(s);
      }
    }
    s.len
  }

  /** A key is in the view exactly when it is live, and maps to the value
      stored in its slot. */
  lemma ViewIsLiveKeys<T>(s: Store<T>, k: Key)
    ensures k in View(s) <==> Live(s, k)
    ensures Live(s, k) ==> View(s)[k] == s.data[k.index].entry.value
  {
  }

  /** The keys of the slots in `occ`, each with its slot's generation. */
  ghost function KeysOf<T>(data: seq<GenEntry<T>>, occ: set<nat>): set<Key>
    requires forall i :: i in occ ==> i < |data|
  {
    set i | i in occ :: Key(i, data[i].generation)
  }

  /** Keys of distinct slots are distinct, so there are as many keys as slots. */
  lemma {:induction false} KeysOfSize<T>(data: seq<GenEntry<T>>, occ: set<nat>)
    requires forall i :: i in occ ==> i < |data|
    ensures |KeysOf(data, occ)| == |occ|
    decreases occ
  {
    if occ != {} {
      var i :| i in occ;
      var rest := occ - {i};
      KeysOfSize(data, rest);
      assert KeysOf(data, occ) == KeysOf(data, rest) + {Key(i, data[i].generation)};
      assert Key(i, data[i].generation) !in KeysOf(data, rest);
    }
  }

  /** In a valid store the cached length is the number of live keys. */
  lemma LenCountsLiveKeys<T>(s: Store<T>)
    requires Valid(s)
    ensures s.len == |View(s)| == |OccupiedSlots(s.data)|
  {
    var occ := OccupiedSlots(s.data);
    assert View(s).Keys == KeysOf(s.data, occ) by {
      forall k | k in View(s).Keys ensures k in KeysOf(s.data, occ) {
        ViewIsLiveKeys(s, k);
        assert k == Key(k.index, s.data[k.index].generation);
      }
    }
    KeysOfSize(s.data, occ);
  }
}
