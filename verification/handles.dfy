/**
  The result types of the interner: an optional value and a fallible
  outcome whose one error kind is handle space exhaustion.
 */
module Results {

  /** An optional value, as returned by `resolve` and `lookup_handle`. */
  datatype Option<+T> = None | Some(value: T)

  /** The one error kind of the interner: the handle space is exhausted. */
  datatype InternerError = Overflow

  /** The outcome of a fallible interner operation. */
  datatype Result<+R> = Ok(value: R) | Err(error: InternerError)
}

/**
  The handle algebra of the interner: the conversion between a dense,
  zero-based store index and a caller-chosen unsigned handle type.

  Converting an index to a handle is the single place where handle space
  exhaustion is detected; converting a handle back to an index is treated
  as always succeeding (every handle width modelled here fits in a 64-bit
  `usize`).
 */
module Handles {
  import opened Results

  /** The unsigned integer type chosen for handles. */
  datatype HandleType = U8 | U16 | U32 | U64

  /** A handle is an unsigned integer of the chosen width. */
  type Handle = nat

  /** The largest value representable by the handle type. */
  function MaxHandle(ht: HandleType): (m: nat)
    ensures 255 <= m
  {
    match ht
    case U8 => 0xFF
    case U16 => 0xFFFF
    case U32 => 0xFFFF_FFFF
    case U64 => 0xFFFF_FFFF_FFFF_FFFF
  }

  /** Number of distinct values a store with this handle type can hold. */
  function Capacity(ht: HandleType): nat {
    MaxHandle(ht) + 1
  }

  /**
    `idx_to_handle`: the fallible `H::try_from(idx)`. It succeeds exactly
    when the index is representable, and then the handle denotes the index.
   */
  function IdxToHandle(ht: HandleType, idx: nat): (r: Result<Handle>)
    ensures r.Ok? <==> idx < Capacity(ht)
    ensures r.Ok? ==> r.value == idx
    ensures r.Err? ==> r.error == Overflow
  {
    if idx <= MaxHandle(ht) then Ok(idx) else Err(Overflow)
  }

  /**
    `usize::try_from(handle)` inside `resolve`, modelled as lossless: the
    index it gives is the one that produced the handle, for every handle type.
   */
  function HandleToIdx(h: Handle): (idx: nat)
    ensures forall ht: HandleType | h < Capacity(ht) :: IdxToHandle(ht, idx) == Ok(h)
  {
    h
  }

  /**
    The two conversions are inverse on the representable range: a handle
    produced from an index converts back to that index, and every index
    below the capacity produces a handle.
   */
  lemma HandleRoundTrip(ht: HandleType, idx: nat)
    ensures idx < Capacity(ht) <==> IdxToHandle(ht, idx).Ok?
    ensures IdxToHandle(ht, idx).Ok? ==> HandleToIdx(IdxToHandle(ht, idx).value) == idx
  {
  }

  /** Handle assignment is injective: distinct indices never share a handle. */
  lemma HandlesInjective(ht: HandleType, i: nat, j: nat)
    requires IdxToHandle(ht, i).Ok? && IdxToHandle(ht, j).Ok?
    ensures IdxToHandle(ht, i) == IdxToHandle(ht, j) <==> i == j
  {
  }

  /** Wider handle types never overflow where narrower ones succeed. */
  lemma WiderHandlesAccept(idx: nat)
    ensures IdxToHandle(U8, idx).Ok? ==> IdxToHandle(U16, idx).Ok?
    ensures IdxToHandle(U16, idx).Ok? ==> IdxToHandle(U32, idx).Ok?
    ensures IdxToHandle(U32, idx).Ok? ==> IdxToHandle(U64, idx).Ok?
  {
  }
}
