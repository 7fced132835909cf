/**
  Laws relating the interner operations to each other: idempotence, the
  resolve round trip, agreement of the intern entry points, the overflow
  boundary of an 8-bit handle, and what a handle says about equality.
 */
module InternerLaws {
  import opened Results
  import opened Handles
  import opened Interning

  /** On a valid store the handle of a stored value is its unique position. */
  lemma HitHandle<T>(s: Interner<T>, x: T, h: nat)
    requires s.Valid()
    requires h < |s.items| && s.items[h] == x
    ensures InternOwned(s, x) == Interned(Ok(h), s)
  {
  }

  /**
    Interning the same value again returns the same handle and leaves the
    store as the first call left it, so `len` no longer changes.
   */
  lemma InternIdempotent<T>(s: Interner<T>, x: T)
    requires s.Valid()
    ensures var r := InternOwned(s, x);
            r.result.Ok? ==> InternOwned(r.after, x) == r
  {
  }

  /**
    Every handle a successful intern returns resolves to the interned
    value, and every handle that resolved before still resolves to the
    same value.
   */
  lemma InternResolveRoundTrip<T>(s: Interner<T>, x: T)
    requires s.Valid()
    ensures var r := InternOwned(s, x);
            && (r.result.Ok? ==> Resolve(r.after, r.result.value) == Some(x))
            && (forall h: Handle | h < |s.items| :: Resolve(r.after, h) == Resolve(s, h))
  {
  }

  /** `lookup_handle` finds a handle exactly at the position holding the value. */
  lemma LookupHandleIff<T>(s: Interner<T>, x: T, h: Handle)
    requires s.Valid()
    ensures LookupHandle(s, x) == Ok(Some(h)) <==> h < |s.items| && s.items[h] == x
  {
  }

  /** After a successful intern, `lookup_handle` reports the handle returned. */
  lemma LookupAfterIntern<T>(s: Interner<T>, x: T)
    requires s.Valid()
    ensures var r := InternOwned(s, x);
            r.result.Ok? ==> LookupHandle(r.after, x) == Ok(Some(r.result.value)) && Contains(r.after, x)
  {
  }

  /**
    `intern_ref`, `intern_cow` (owned or borrowed) and
    `intern_ref_or_insert_with` with a `make` that builds the key all
    return the same handle and store as `intern_owned` of an equal value.
   */
  lemma VariantsAgree<T>(s: Interner<T>, x: T, toOwned: T -> T, make: () -> T)
    requires s.Valid()
    requires toOwned(x) == x
    requires make() == x
    ensures InternRef(s, x, toOwned) == InternOwned(s, x)
    ensures InternCow(s, Borrowed(x), toOwned) == InternOwned(s, x)
    ensures InternCow(s, Owned(x), toOwned) == InternOwned(s, x)
    ensures InternRefOrInsertWith(s, x, make) == InternOwned(s, x)
  {
  }

  /** On a hit, the result does not depend on `make`: it is never called. */
  lemma MakeNotCalledOnHit<T>(s: Interner<T>, key: T, make1: () -> T, make2: () -> T)
    requires s.Valid()
    requires key in s.items
    ensures InternRefOrInsertWith(s, key, make1) == InternRefOrInsertWith(s, key, make2)
  {
  }

  /**
    `intern_ref_or_insert_with` does not check what `make` builds. When it
    builds a value that is already stored (and differs from the key), the
    call still reports the old length as a new handle, but nothing was
    appended, so that handle resolves to nothing.
   */
  lemma MakeDuplicateGivesStaleHandle<T>(s: Interner<T>, key: T, make: () -> T)
    requires s.Valid()
    requires key !in s.items && |s.items| < Capacity(s.handleType)
    requires make() in s.items
    ensures var r := InternRefOrInsertWith(s, key, make);
            && r.result == Ok(|s.items|)
            && r.after == s
            && Resolve(r.after, r.result.value) == None
  {
  }

  /**
    Handles decide equality: interning `x` and then `y`, both
    successfully, yields equal handles exactly when the values are equal.
   */
  lemma HandlesDecideEquality<T>(s: Interner<T>, x: T, y: T)
    requires s.Valid()
    ensures var r1 := InternOwned(s, x);
            var r2 := InternOwned(r1.after, y);
            r1.result.Ok? && r2.result.Ok? ==> (r1.result == r2.result <==> x == y)
  {
  }

  /** `clear` restarts handle assignment: the next new value gets handle 0. */
  lemma ClearRestartsHandles<T>(s: Interner<T>, x: T)
    ensures InternOwned(Clear(s), x) == Interned(Ok(0), Interner([x], s.handleType))
  {
  }

  /**
    Interning the values of `xs` one after the other with `intern_owned`:
    the store after the last call and the result of every call.
   */
  function InternAll<T(==)>(s: Interner<T>, xs: seq<T>): (r: (Interner<T>, seq<Result<Handle>>))
    requires s.Valid()
    ensures r.0.Valid() && r.0.handleType == s.handleType
    ensures |r.1| == |xs|
    decreases |xs|
  {
    if |xs| == 0 then (s, [])
    else
      var first := InternOwned(s, xs[0]);
      var rest := InternAll(first.after, xs[1..]);
      (rest.0, [first.result] + rest.1)
  }

  /**
    Interning distinct new values while there is room hands out the
    consecutive handles after the current length and appends the values
    in order.
   */
  lemma {:induction false} InternAllFresh<T>(s: Interner<T>, xs: seq<T>)
    requires s.Valid()
    requires Distinct(xs)
    requires forall i | 0 <= i < |xs| :: xs[i] !in s.items
    requires |s.items| + |xs| <= Capacity(s.handleType)
    ensures InternAll(s, xs).0.items == s.items + xs
    ensures forall i | 0 <= i < |xs| :: InternAll(s, xs).1[i] == Ok(|s.items| + i)
    decreases |xs|
  {
    if |xs| > 0 {
      var first := InternOwned(s, xs[0]);
      assert first.after.items == s.items + [xs[0]];
      var tail := xs[1..];
      forall i | 0 <= i < |tail|
        ensures tail[i] !in first.after.items
      {
        assert tail[i] == xs[i + 1];
      }
      assert Distinct(tail) by {
        forall i, j | 0 <= i < j < |tail| ensures tail[i] != tail[j] {
          assert tail[i] == xs[i + 1] && tail[j] == xs[j + 1];
        }
      }
      InternAllFresh(first.after, tail);
      assert s.items + [xs[0]] + tail == s.items + xs by {
        assert xs == [xs[0]] + tail;
      }
    }
  }

  /**
    The overflow boundary of an 8-bit handle: 256 distinct values are
    accepted with handles 0 to 255, and the 257th distinct value fails
    with `Overflow` while the length stays 256.
   */
  lemma OverflowBoundaryU8()
    ensures var xs := seq(256, i => i);
            var (full, results) := InternAll(New<int>(U8), xs);
            && (forall i | 0 <= i < 256 :: results[i] == Ok(i))
            && Len(full) == 256
            && InternOwned(full, 256) == Interned(Err(Overflow), full)
  {
    var xs := seq(256, i => i);
    var empty := New<int>(U8);
    InternAllFresh(empty, xs);
    var full := InternAll(empty, xs).0;
    assert full.items == xs;
    assert 256 !in full.items;
  }
}
