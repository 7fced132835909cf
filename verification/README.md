# A Dafny model of the `xgx_intern` interner

This project models the core of the Rust crate `xgx_intern` and proves properties of that model.

The first part is the deduplicating store `Interner<T, S, H>`. It is an insertion-ordered set of distinct values. It hands out a small handle of type `H` for each value, and that handle is the value's position in insertion order. The second part is the pair of wrappers `HashableF64` / `HashableF32`. They give floats a total equality and a hash that both work on the raw bit pattern, so floats can be used as interner keys.

Modules, one per component:

- `Results` (`handles.dfy`): the `Option` and `Result` types and the one error kind, `Overflow`.
- `Handles` (`handles.dfy`): the handle algebra. It defines the handle widths `U8`/`U16`/`U32`/`U64`, their largest handle, and the fallible index-to-handle conversion (the only place `Overflow` arises).
- `Interning` (`interner.dfy`): the store as an immutable datatype `Interner(items, handleType)`.
  - Every operation is a pure function. An intern call returns the result together with the store after the call.
  - `Valid()` is the representation invariant: no duplicates, and at most `MaxHandle + 1` values.
  - The store the `new` family builds is valid, and every operation keeps it valid. For that reason the intern functions take `Valid()` as a precondition.
- `InternerLaws` (`interner_laws.dfy`): laws that relate several calls. They cover idempotence, the resolve round trip, agreement of the intern entry points, the 8-bit overflow boundary, and the fact that handles decide equality.
- `Arena` (`arena.dfy`): `export_arena`. It is modelled as a method with a loop and proved against a reference definition: the concatenation of the values plus their prefix-sum offsets.
- `Float` (`float.dfy`): the float wrappers over raw bits (`bv64`/`bv32`).

The store has no removal operation: it only grows, or is emptied by `clear`. A stored value may be the empty string, so consecutive arena offsets can be equal (`src/lib.rs:430-433`). The offsets are therefore non-decreasing, which is what `ArenaLayout` and `ArenaLayoutMonotone` state.

## Model

| member | source | states |
|---|---|---|
| Handles.IdxToHandle | src/lib.rs:303-309 | converting an index succeeds exactly when it is representable by the handle type, yields that index, and otherwise fails with `Overflow` |
| Handles.HandleToIdx | src/lib.rs:318 | the index recovered from a handle is the one that, converted back under any handle type wide enough to hold it, gives that handle |
| Handles.HandleRoundTrip | src/lib.rs:307-318 | an index converted to a handle and back (as `resolve` does) is the same index; every index below the capacity converts |
| Handles.HandlesInjective | src/lib.rs:307-309 | two representable indices get equal handles exactly when they are equal |
| Handles.WiderHandlesAccept | src/lib.rs:53-55 | an index accepted by a narrower handle type is accepted by every wider one |
| Interning.IndexOf | src/lib.rs:175 | the probe finds a position holding the value exactly when the value is stored, and no earlier position holds it |
| Interning.SetInsert | src/lib.rs:182 | inserting leaves the set unchanged when the value is present, otherwise appends it at the end, and never creates a duplicate |
| Interning.New | src/lib.rs:141-146 | a new store is valid, has the requested handle type, and no handle resolves in it |
| Interning.WithCapacity | src/lib.rs:154-159 | the capacity is only a hint: the store is valid and empty |
| Interning.Default | src/lib.rs:107-109 | the default store is valid and empty |
| Interning.InternRefOrInsertWith | src/lib.rs:243-255 | a hit returns the key's existing position and leaves the store as it was. A miss with room returns the old length and inserts whatever `make()` built, without checking it against the key. A miss without room returns `Overflow` with the store unchanged. The result is always a valid store |
| Interning.InternOwned | src/lib.rs:172-184 | a hit returns the value's existing position and leaves the store unchanged. A miss with room returns handle `len` and appends the value. A miss at capacity returns `Overflow` and leaves the store exactly as it was. The result is valid |
| Interning.InternRef | src/lib.rs:200-211 | a successful handle denotes the item in the new store. A hit never changes the store. A miss with room appends the owned copy at the old length. `Overflow` happens exactly on a miss at capacity and changes nothing |
| Interning.AsRef | src/lib.rs:234 | the viewed value of a `Cow` is the value it borrows or owns, whichever variant it is |
| Interning.IntoOwned | src/lib.rs:238 | the owned form of a `Cow` equals the value it views |
| Interning.InternCow | src/lib.rs:229-240 | for both `Cow` variants, the same hit, miss and `Overflow` behaviour as `intern_ref`, keyed by the viewed value |
| Interning.LookupHandle | src/lib.rs:259-267 | on a valid store the lookup never fails. It reports `None` exactly when the value is absent, and otherwise a handle whose position holds the value |
| Interning.Contains | src/lib.rs:271-277 | holds exactly when some position of the store holds the value |
| Interning.Resolve | src/lib.rs:311-320 | a handle resolves exactly when it is below `len`, and then to the value at that position |
| Interning.Len | src/lib.rs:322-327 | the handles that resolve are exactly those below the length |
| Interning.IsEmpty | src/lib.rs:329-334 | the store is empty exactly when its length is 0, and exactly when no handle resolves |
| Interning.Clear | src/lib.rs:297-301 | after clearing, the store is valid, empty and keeps its handle type |
| Interning.Export | src/lib.rs:345-357 | the exported sequence has `len` entries, and entry `h` is what `resolve(h)` returns |
| InternerLaws.HitHandle | src/lib.rs:175-176 | on a valid store, interning a stored value returns its unique position and changes nothing |
| InternerLaws.InternIdempotent | src/lib.rs:470-480 | after a successful intern, interning the same value again returns the same handle and the same store, so `len` stays fixed |
| InternerLaws.InternResolveRoundTrip | src/lib.rs:459-467 | the handle of a successful intern resolves to the interned value, and every earlier handle resolves as before |
| InternerLaws.LookupHandleIff | src/lib.rs:666-674 | on a valid store, `lookup_handle(x)` is `Some(h)` exactly when position `h` holds `x` |
| InternerLaws.LookupAfterIntern | src/lib.rs:666-682 | after a successful intern, `lookup_handle` returns that handle and `contains` holds |
| InternerLaws.VariantsAgree | src/lib.rs:531-543 | `intern_ref`, `intern_cow` (borrowed or owned) and `intern_ref_or_insert_with` whose `make` builds the key give the same handle and store as `intern_owned` |
| InternerLaws.MakeNotCalledOnHit | src/lib.rs:249-251 | on a hit the result does not depend on `make` at all |
| InternerLaws.MakeDuplicateGivesStaleHandle | src/lib.rs:252-254 | if `make` builds a value that is already stored, the call still returns the old length as a handle, the store is unchanged, and that handle resolves to nothing |
| InternerLaws.HandlesDecideEquality | src/lib.rs:42-46 | of two successful interns in a row, the handles are equal exactly when the values are equal |
| InternerLaws.ClearRestartsHandles | src/lib.rs:297-301 | after `clear`, the next new value gets handle 0 and is the only value stored |
| InternerLaws.InternAll | src/lib.rs:604-608 | interning a sequence of values one by one keeps the store valid and yields one result per value |
| InternerLaws.InternAllFresh | src/lib.rs:585-596 | interning distinct new values while there is room yields consecutive handles from the old length and appends the values in order |
| InternerLaws.OverflowBoundaryU8 | src/lib.rs:598-617 | with 8-bit handles, 256 distinct values get handles 0 to 255. The 257th distinct value fails with `Overflow` and the length stays 256 |
| Arena.TotalBytes | src/lib.rs:418 | the byte count summed up front equals the length of the buffer the texts fill when appended in order |
| Arena.Offsets | src/lib.rs:423-433 | the offsets table has one more entry than there are values. It starts at 0, and entry `i` is the byte length of the first `i` values concatenated |
| Arena.FlattenPrefix | src/lib.rs:430-432 | the buffer built from a prefix of the values is a prefix of the full buffer |
| Arena.ArenaSlices | src/lib.rs:405-408 | the concatenated buffer and its prefix sums form an arena layout: the last offset is the buffer length, and each value's text lies between its two offsets |
| Arena.ArenaLayoutMonotone | src/lib.rs:430-433 | in an arena layout, offsets never decrease |
| Arena.ExportArena | src/lib.rs:415-436 | the returned buffer is the store's values concatenated in insertion order, and the offsets are their prefix sums. The buffer length is the byte count computed up front, and the pair is an arena layout of the exported values |
| Arena.ArenaResolves | src/lib.rs:405-408 | the bytes between the offsets of handle `h` are the text of the value `resolve(h)` returns |
| Arena.HelloWorldArena | src/lib.rs:405-408 | the documented slicing rule, worked out for a concrete store: interning "hello" then "world" gives the buffer "helloworld" and offsets 0, 5 and 10 |
| Float.EqF64 | src/float.rs:11-17 | two `HashableF64` are equal exactly when their bit patterns are identical |
| Float.EqF32 | src/float.rs:79-85 | two `HashableF32` are equal exactly when their bit patterns are identical |
| Float.HashF64 | src/float.rs:22-27 | the hash is the hasher applied to the bit pattern, so any equal wrapper produces the same hash |
| Float.HashF32 | src/float.rs:90-95 | the hash is the hasher applied to the bit pattern, so any equal wrapper produces the same hash |
| Float.NewF64 | src/float.rs:41-53 | `new` and `From<f64>` wrap a float with its bits unchanged |
| Float.NewF32 | src/float.rs:109-121 | `new` and `From<f32>` wrap a float with its bits unchanged |
| Float.IntoInnerF64 | src/float.rs:54-73 | `into_inner`, `as_inner`, `Deref` and `From<HashableF64> for f64` give back the float that re-wraps to the same wrapper |
| Float.IntoInnerF32 | src/float.rs:122-141 | `into_inner`, `as_inner`, `Deref` and `From<HashableF32> for f32` give back the float that re-wraps to the same wrapper |
| Float.CloneF64 | src/float.rs:8 | a clone or copy is equal to the original |
| Float.CloneF32 | src/float.rs:76 | a clone or copy is equal to the original |
| Float.ConstructionRoundTrip | src/float.rs:185-243 | unwrapping a wrapped float returns identical bits, and re-wrapping an unwrapped wrapper gives the same wrapper, for both widths |
| Float.EqIsEquivalence | src/float.rs:19-20 | bit-pattern equality is reflexive, symmetric and transitive on every pattern, for both widths |
| Float.HashConsistent | src/float.rs:150-174 | equal wrappers hash identically under any hasher, for both widths |
| Float.NanSelfEqual | src/float.rs:245-252 | every NaN wrapper equals itself, and the canonical NaN equals a NaN rebuilt from its bits. A NaN with a different payload is a different key |
| Float.SignedZerosDiffer | src/float.rs:176-181 | `+0.0` and `-0.0` are both zeros but unequal wrappers, for both widths |
| Float.FloatKeysInStore | src/float.rs:11-17 | bit-pattern equality carried over to a store: in a store of `HashableF64`, NaN interned twice takes one slot and one handle, while `+0.0` and `-0.0` get handles 0 and 1 |

## Left out

- `src/from_ref.rs` (`FromRef`): `src/lib.rs` does not declare this module, and every impl in it delegates to standard-library conversions. The interner uses `ToOwned` instead. The one idea the model keeps is that the owned copy equals the key (the `toOwned` parameter).
- InternRef, InternCow, InternRefOrInsertWith, LookupHandle, Contains: only the case where the borrowed shape `Q` equals `T` is modelled. The crate's own tests call these with `&str` keys on a store of `String` (`src/lib.rs:668`, `src/lib.rs:680`); that case is covered only through a key that is already of type `T`. The `Borrow`/`ToOwned` law "the owned copy equals the key" becomes a precondition on the `toOwned` parameter.
- The hashing strategy `S` and the hash table inside `IndexSet`: these are external library code. Membership and position are decided by equality over a sequence.
- `capacity`, `reserve`, `shrink_to_fit`, the capacity argument of `with_capacity`, and the capacities `export_arena` computes for its buffer and table (`src/lib.rs:422-423`): allocation hints with no observable effect.
- InternResolveRoundTrip: `T`'s `Eq` is modelled as Dafny equality, that is identity. With a coarser `Eq`, a hit returns the handle of the first-stored equal value, so `resolve` gives back a value equal to the key only up to `Eq`, not the key itself.
- The `Debug` impl of the interner, and the `Display`/`Debug` impls of the wrappers: formatting only.
- The derived `PartialOrd` of the wrappers: it is native float ordering, and float values and arithmetic are not modelled. Floats are held as their bit patterns only.
- `iter()` and both `IntoIterator` impls: they yield the stored values in insertion order, which is the sequence `Export` returns.
- Handle types `u128` and `usize`: only `u8`, `u16`, `u32` and `u64` are modelled. `usize::try_from(handle)` in `resolve` is modelled as always succeeding.
- `usize` arithmetic: lengths and offsets are unbounded naturals. Overflow of `usize` itself is not modelled.
- MakeNotCalledOnHit: `make` is a pure function in the model, so "called at most once" cannot be observed. The lemma states the observable part, that a hit does not depend on `make`.
- The UTF-8 validity of the arena buffer, and ownership, moves and lifetimes.
