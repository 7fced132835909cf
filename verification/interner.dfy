/**
  The deduplicating store `Interner<T, S, H>`.

  The store is an insertion-ordered set of distinct values; the handle of
  a value is its position in that order, converted through the handle
  algebra. The hashing strategy `S` and the hash table behind the set are
  not modelled: membership and position are decided by equality over the
  sequence of stored values. Every operation is a pure function from the
  store before the call to the result and the store after it.
 */
module Interning {
  import opened Results
  import opened Handles

  /** `items: IndexSet<T, S>` together with the handle type `H`. */
  datatype Interner<T(==)> = Interner(items: seq<T>, handleType: HandleType) {

    /**
      The representation invariant: no value is stored twice, and every
      stored position is representable as a handle. Every store built by
      the operations below satisfies it.
     */
    predicate Valid() {
      && Distinct(items)
      && |items| <= Capacity(handleType)
    }
  }

  /** The state after an intern call, paired with the call's result. */
  datatype Interned<T(==)> = Interned(result: Result<Handle>, after: Interner<T>)

  /** `Cow<'_, T>`: a value that is either borrowed or already owned. */
  datatype Cow<T> = Borrowed(borrowed: T) | Owned(owned: T)

  /** No two positions of `xs` hold equal values. */
  predicate Distinct<T(==)>(xs: seq<T>) {
    forall i, j | 0 <= i < j < |xs| :: xs[i] != xs[j]
  }

  /**
    `IndexSet::get_index_of`: the position of `x`, if present. On a
    sequence with distinct elements this position is the only one holding `x`.
   */
  function IndexOf<T(==)>(xs: seq<T>, x: T): (r: Option<nat>)
    ensures r.None? <==> x !in xs
    ensures r.Some? ==> r.value < |xs| && xs[r.value] == x
    ensures r.Some? ==> forall j | 0 <= j < r.value :: xs[j] != x
  {
    if |xs| == 0 then None
    else if xs[0] == x then Some(0)
    else match IndexOf(xs[1..], x)
      case None => None
      case Some(i) => Some(i + 1)
  }

  /**
    `IndexSet::insert`: appends `x` unless an equal value is already
    stored, in which case the set is left as it is.
   */
  function SetInsert<T(==)>(xs: seq<T>, x: T): (r: seq<T>)
    ensures x in xs ==> r == xs
    ensures x !in xs ==> |r| == |xs| + 1 && r[..|xs|] == xs && r[|xs|] == x
    ensures Distinct(xs) ==> Distinct(r)
  {
    if x in xs then xs else xs + [x]
  }

  /** `new(hasher)`: an empty store. The hashing strategy is not modelled. */
  function New<T(==)>(ht: HandleType): (r: Interner<T>)
    ensures r.Valid() && r.handleType == ht
    ensures forall h: Handle :: Resolve(r, h).None?
  {
    Interner([], ht)
  }

  /** `with_capacity(hasher, capacity)`: the capacity is only an allocation hint. */
  function WithCapacity<T(==)>(ht: HandleType, capacity: nat): (r: Interner<T>)
    ensures r.Valid() && r.handleType == ht
    ensures Len(r) == 0
  {
    New(ht)
  }

  /** `Default::default()`: `new` with the default hashing strategy. */
  function Default<T(==)>(ht: HandleType): (r: Interner<T>)
    ensures r.Valid() && r.handleType == ht
    ensures IsEmpty(r)
  {
    New(ht)
  }

  /**
    `intern_ref_or_insert_with(key, make)`. Every intern entry point
    follows the same pattern: probe for `key`; on a hit return its handle; on a miss
    check that the next index is representable and only then insert the
    value `make()` builds. The inserted value is not checked against `key`.
   */
  function InternRefOrInsertWith<T(==)>(s: Interner<T>, key: T, make: () -> T): (r: Interned<T>)
    requires s.Valid()
    ensures r.after.Valid() && r.after.handleType == s.handleType
    // hit: the existing position, nothing changes, `make` is not consulted
    ensures key in s.items ==>
              && r.after == s
              && r.result.Ok?
              && r.result.value < |s.items|
              && s.items[r.result.value] == key
    // miss with room: the handle is the old length, the store gains `make()` unless present
    ensures key !in s.items && |s.items| < Capacity(s.handleType) ==>
              && r.result == Ok(|s.items|)
              && (make() in s.items ==> r.after.items == s.items)
              && (make() !in s.items ==> r.after.items == s.items + [make()])
    // miss without room: overflow, and the store is left exactly as it was
    ensures key !in s.items && |s.items| >= Capacity(s.handleType) ==>
              r.result == Err(Overflow) && r.after == s
  {
    match IndexOf(s.items, key)
    case Some(idx) => Interned(IdxToHandle(s.handleType, idx), s)
    case None =>
      match IdxToHandle(s.handleType, |s.items|)
      case Err(e) => Interned(Err(e), s)
      case Ok(h) => Interned(Ok(h), s.(items := SetInsert(s.items, make())))
  }

  /**
    `intern_owned(item)`: a hit returns the existing handle; a miss with
    room appends `item` and returns the old length as its handle; a miss
    without room fails with `Overflow` and leaves the store untouched.
   */
  function InternOwned<T(==)>(s: Interner<T>, item: T): (r: Interned<T>)
    requires s.Valid()
    ensures r.after.Valid() && r.after.handleType == s.handleType
    ensures item in s.items ==>
              && r.after == s
              && r.result.Ok?
              && r.result.value < |s.items|
              && s.items[r.result.value] == item
    ensures item !in s.items && |s.items| < Capacity(s.handleType) ==>
              && r.result == Ok(|s.items|)
              && r.after.items == s.items + [item]
    ensures item !in s.items && |s.items| >= Capacity(s.handleType) ==>
              r.result == Err(Overflow) && r.after == s
  {
    InternRefOrInsertWith(s, item, () => item)
  }

  /**
    `intern_ref(item)` with the borrowed shape equal to `T`: on a miss the
    stored value is `toOwned(item)`, the owned copy. The `ToOwned`/`Borrow`
    contract of the source makes that copy equal to the key.
   */
  function InternRef<T(==)>(s: Interner<T>, item: T, toOwned: T -> T): (r: Interned<T>)
    requires s.Valid()
    requires toOwned(item) == item
    ensures r.after.Valid() && r.after.handleType == s.handleType
    ensures r.result.Ok? ==> r.result.value < |r.after.items| && r.after.items[r.result.value] == item
    ensures item in s.items ==> r.after == s && r.result.Ok?
    ensures item !in s.items && |s.items| < Capacity(s.handleType) ==>
              r.result == Ok(|s.items|) && r.after.items == s.items + [item]
    ensures r.result.Err? <==> item !in s.items && |s.items| >= Capacity(s.handleType)
    ensures r.result.Err? ==> r.after == s
  {
    InternRefOrInsertWith(s, item, () => toOwned(item))
  }

  /** `Cow::as_ref`: the value viewed by reference, whichever variant holds it. */
  function AsRef<T>(c: Cow<T>): (r: T)
    ensures c == Borrowed(r) || c == Owned(r)
  {
    match c
    case Borrowed(b) => b
    case Owned(o) => o
  }

  /** `Cow::into_owned`: an owned value is moved, a borrowed one is copied. */
  function IntoOwned<T>(c: Cow<T>, toOwned: T -> T): (r: T)
    requires c.Borrowed? ==> toOwned(c.borrowed) == c.borrowed
    ensures r == AsRef(c)
  {
    match c
    case Borrowed(b) => toOwned(b)
    case Owned(o) => o
  }

  /**
    `intern_cow(item)`: probes with the viewed value and, on a miss,
    stores the owned form, copying only a borrowed value.
   */
  function InternCow<T(==)>(s: Interner<T>, item: Cow<T>, toOwned: T -> T): (r: Interned<T>)
    requires s.Valid()
    requires item.Borrowed? ==> toOwned(item.borrowed) == item.borrowed
    ensures r.after.Valid() && r.after.handleType == s.handleType
    ensures r.result.Ok? ==> r.result.value < |r.after.items| && r.after.items[r.result.value] == AsRef(item)
    ensures AsRef(item) in s.items ==> r.after == s && r.result.Ok?
    ensures AsRef(item) !in s.items && |s.items| < Capacity(s.handleType) ==>
              r.result == Ok(|s.items|) && r.after.items == s.items + [AsRef(item)]
    ensures r.result.Err? <==> AsRef(item) !in s.items && |s.items| >= Capacity(s.handleType)
    ensures r.result.Err? ==> r.after == s
  {
    InternRefOrInsertWith(s, AsRef(item), () => IntoOwned(item, toOwned))
  }

  /**
    `lookup_handle(item)`: the handle of `item` if stored, never inserting.
    The conversion of the found index can fail only on a store that breaks
    the invariant.
   */
  function LookupHandle<T(==)>(s: Interner<T>, item: T): (r: Result<Option<Handle>>)
    ensures s.Valid() ==> r.Ok?
    ensures r == Ok(None) <==> item !in s.items
    ensures r.Ok? && r.value.Some? ==> r.value.value < |s.items| && s.items[r.value.value] == item
  {
    match IndexOf(s.items, item)
    case None => Ok(None)
    case Some(idx) =>
      match IdxToHandle(s.handleType, idx)
      case Err(e) => Err(e)
      case Ok(h) => Ok(Some(h))
  }

  /** `contains(item)`: whether an equal value is stored. */
  function Contains<T(==)>(s: Interner<T>, item: T): (r: bool)
    ensures r <==> exists i | 0 <= i < |s.items| :: s.items[i] == item
  {
    item in s.items
  }

  /**
    `resolve(handle)`: the value a handle denotes, or `None` when the
    handle is past the end of the store.
   */
  function Resolve<T(==)>(s: Interner<T>, h: Handle): (r: Option<T>)
    ensures r.Some? <==> h < |s.items|
    ensures r.Some? ==> r.value == s.items[h]
  {
    var idx := HandleToIdx(h);
    if idx < |s.items| then Some(s.items[idx]) else None
  }

  /** `len()`: the number of distinct values stored. */
  function Len<T(==)>(s: Interner<T>): (n: nat)
    ensures forall h: Handle :: Resolve(s, h).Some? <==> h < n
  {
    |s.items|
  }

  /** `is_empty()`: no handle resolves. */
  function IsEmpty<T(==)>(s: Interner<T>): (r: bool)
    ensures r <==> Len(s) == 0
    ensures r <==> forall h: Handle :: Resolve(s, h).None?
  {
    assert !(|s.items| == 0) ==> Resolve(s, 0).Some?;
    |s.items| == 0
  }

  /** `clear()`: drops every value; handle assignment restarts at zero. */
  function Clear<T(==)>(s: Interner<T>): (r: Interner<T>)
    ensures r.Valid() && r.handleType == s.handleType
    ensures IsEmpty(r)
  {
    s.(items := [])
  }

  /**
    `export()`, and equally `iter()` and both `IntoIterator` impls: every
    stored value in insertion order, so position `h` holds the value of handle `h`.
   */
  function Export<T(==)>(s: Interner<T>): (r: seq<T>)
    ensures |r| == Len(s)
    ensures forall h | 0 <= h < |r| :: Resolve(s, h) == Some(r[h])
  {
    s.items
  }
}
