# GenVec: a generational slot map, modelled in Dafny

`GenVec<T>` stores values in a growable vector of slots and hands out a `Key`
(slot index plus generation) for each inserted value. A key resolves only
while its slot is occupied and still carries the key's generation. Removing a
value bumps the slot's generation, so every copy of the old key goes stale,
and pushes the slot onto a free list. That list is threaded through the
vector itself: a free slot records the index of the next free slot, and the
chain ends at the sentinel index `data.len()`, meaning "append a new slot".

The model has two modules:

- `GenVec` (genvec.dfy) holds the data model (`Key`, `Entry`, `GenEntry`,
  `Store`) and the operations `New`, `Insert`, `Get`, `Remove` and `Len`. Each
  is a pure function over an immutable `Store`. The store also has an abstract
  view `View`, a map from live keys to values. The invariant `Valid` says two
  things. First, there is a free chain `FreeChain`: every slot on it is free,
  no slot is visited twice, it ends at `|data|`, and every free slot lies on
  it. Second, the cached `len` equals the number of occupied slots.
- `GenVecProperties` (genvec_properties.dfy) proves that every operation
  preserves `Valid`. It shows that insert pops the free chain and remove pushes
  onto it. It shows that `Get`, `Insert` and `Remove` refine map lookup,
  map update and key removal on the view. It proves slot reuse, idempotent
  removal and framing. For any sequence of calls (`Run`), it proves that
  generations never go down and that a removed key never resolves again. It
  also restates the repository's unit test as methods.

The source's panics appear as `Panic(fault)` results. `CorruptFreeList` is the
`panic!` in `insert`. `LenUnderflow` is the `usize` subtraction in `remove`.
`IndexOutOfBounds` is an out-of-range key, and it is used only by `Run`.
Under `Valid`, the first two are proved unreachable.

## Model

| member | source | states |
|---|---|---|
| GenVec.New | src/main.rs:27-33 | The new store satisfies the free-list and count invariant (the head 0 is the sentinel of the empty vector), and no key is live. |
| GenVec.Insert | src/main.rs:35-63 | On a valid store, insert never reaches the "corrupt free list" panic. The returned key is live and resolves to the inserted value. Storage never shrinks. No slot's generation changes. Every slot other than the key's is untouched. |
| GenVec.Remove | src/main.rs:77-93 | On a valid store, remove never panics. A key that is not live (stale generation or free slot) leaves the store unchanged. Afterwards the key resolves to nothing, the vector keeps its length, every other slot is untouched, and a live key's slot generation becomes the key's generation plus one. |
| GenVec.ViewIsLiveKeys | src/main.rs:65-72 | A key is in the abstract view iff its slot exists, is occupied and carries the key's generation; the view maps it to the stored value. |
| GenVec.Get | src/main.rs:65-75 | For any key whose index is allocated, `get` answers exactly as a lookup in the abstract view: the stored value for a live key, nothing for a stale one. |
| GenVec.Len | src/main.rs:94-96 | In a valid store, `len` equals the number of live keys in the abstract view and the number of occupied slots. |
| GenVec.KeysOfSize | src/main.rs:94-96 | Helper for the `len` count: keys built from distinct slots are distinct, so a set of slots yields exactly as many keys. |
| GenVec.LenCountsLiveKeys | src/main.rs:94-96 | In a valid store, `len` equals the number of live keys and the number of occupied slots. |
| GenVecProperties.InsertPopsFreeChain | src/main.rs:36-58 | With a well-formed free chain, insert does not panic. A non-empty chain loses its head slot, which becomes the key's index with that slot's current generation, and the rest of the chain stays well formed. An empty chain yields key (`|data|`, 0), and the chain stays empty with its end at the new length. |
| GenVecProperties.RemovePushesFreeChain | src/main.rs:84-90 | Removing a live key puts its slot in front of the existing free chain, and the result is still a well-formed chain. |
| GenVecProperties.ViewAfterInsert | src/main.rs:35-63 | A successful insert issues a key that was not live before. The view changes only by binding that key to the new value. |
| GenVecProperties.ViewAfterRemove | src/main.rs:80-90 | Removing a live key deletes exactly that key from the view. |
| GenVecProperties.OccupiedAfterInsert | src/main.rs:43-56 | Insert occupies exactly one slot that was not occupied before. |
| GenVecProperties.InsertPreservesValid | src/main.rs:35-63 | Insert on a valid store succeeds and keeps the store valid. `len` grows by exactly one. The new key was not live, and the view gains exactly that key. |
| GenVecProperties.OccupiedAfterRemove | src/main.rs:80-90 | Removing a live key frees exactly its slot, which was occupied before. |
| GenVecProperties.RemovePreservesValid | src/main.rs:77-93 | Remove on a valid store succeeds and keeps the store valid. The view loses exactly the key. On a live key `len` drops by exactly one; on any other key the store is unchanged. |
| GenVecProperties.InsertFreshSlot | src/main.rs:48-58 | When the head is at or past the end, insert appends one slot holding the value with generation 0 and returns key (`|data|`, 0). The head moves to the new length and `len` grows by one. |
| GenVecProperties.SlotReuse | src/main.rs:36-89 | After a live key is removed, the next insert reuses the same index with generation one higher, and it leaves that generation unchanged. The removed key then resolves to nothing and the new key resolves to the new value. |
| GenVecProperties.RemoveIdempotent | src/main.rs:80-92 | A second remove of the same key returns the same store as the first. |
| GenVecProperties.RemoveKeepsOtherKeys | src/main.rs:78-90 | Removing one key never changes what any other key resolves to. |
| GenVecProperties.StepPreservesValid | src/main.rs:35-93 | One insert or remove on a valid store keeps it valid and lowers no generation. Its only possible abort is an unallocated index. |
| GenVecProperties.RunPreservesValid | src/main.rs:26-97 | Any sequence of calls from a valid store keeps it valid, never lowers a slot's generation and never shrinks the vector. Only an out-of-range key can abort it. |
| GenVecProperties.ReachableIsValid | src/main.rs:27-33 | Every store reachable from `new` is valid, and its `len` equals its number of live keys. |
| GenVecProperties.RemovedKeyStaysDead | src/main.rs:85-89 | Once a live key is removed, it never becomes live again, whatever calls follow. |
| GenVecProperties.AppendOne | src/main.rs:48-62 | On a valid store with no free slot, insert appends the value in a new slot with generation 0 and returns key (`|data|`, 0). The head moves to the new length, the store stays valid and `len` grows by one. |
| GenVecProperties.InsertThree | src/main.rs:105-113 | Three inserts into a new store give keys (0,0), (1,0), (2,0). Each key resolves to its own value, and the length is 3. |
| GenVecProperties.RemoveThenInsert | src/main.rs:116-128 | Right after removing a live key, the key resolves to nothing and the length is one less. Inserting again reuses the slot with the next generation. The old key stays stale, the new one resolves, the length is back to its value before the remove and the other slots are untouched. |
| GenVecProperties.ReuseTwice | src/main.rs:116-128 | Two rounds of remove-then-insert on one live key. The store right after the first remove is exactly the result of that remove: the key resolves to nothing and the length is one less. The two new keys take the same slot with the next two generations. Only the last key resolves, and the other slots are untouched. |
| GenVecProperties.GenVecScenario | src/main.rs:104-131 | The repository's test holds for any five values. In the store right after the three inserts, the keys have distinct indices, each resolves to its own value, and the length is 3. The store right after `remove(&a)` is that remove's result: `a` resolves to nothing and the length is 2. The later keys share the first index with pairwise different generations. At the end, stale keys resolve to nothing and live keys resolve to their values. |

## Left out

- `fn main` and its `println!` (src/main.rs:1-3): output only, unrelated to the structure.
- Rust references and borrowing: `Get` returns the stored value itself rather than `Option<&T>`, and mutation is modelled by returning a new `Store`.
- Out-of-range keys: `Get` and `Remove` require `k.index < |data|`, because the source's indexing panics before any check runs. `Run` models such a remove as an abort with `IndexOutOfBounds`.
- GenVec.Remove: the generation is an unbounded `nat`, so the `u32` overflow of `*generation += 1` after 2^32 removals from one slot is not modelled. That overflow panics in a debug build and wraps in a release build. No wrap-around policy is invented.
- `usize` widths: `index`, `free_head` and `len` are unbounded naturals. The `len - 1` underflow is modelled as the debug-build panic (`LenUnderflow`); a release build would instead wrap `len` to `usize::MAX`. Both are unreachable under `Valid`.
- State after a panic: the model returns only the fault, without a store. For `insert` this loses nothing, since its `panic!` (src/main.rs:46) fires before any write. For `remove`, the `len - 1` underflow (src/main.rs:90) comes after the generation, the entry and `free_head` have been written (src/main.rs:85-89), so the source would unwind with the vector partly updated. That state is not modelled.
- `get` calls in a `Run`: `Get` is read-only, so sequences of calls contain only inserts and removes.
