/**
  `export_arena`: the store of string-like values flattened into one
  contiguous buffer plus a prefix-sum table of offsets, so that the value
  of handle `h` occupies `buffer[offsets[h] .. offsets[h + 1]]`.

  A value's text is its UTF-8 bytes, given by the `asStr` parameter (the
  `AsRef<str>` view); lengths and offsets count bytes, as the source's do.
 */
module Arena {
  import opened Results
  import opened Handles
  import opened Interning

  newtype uint8 = x: int | 0 <= x < 0x100

  /** The UTF-8 bytes of a string. */
  type Bytes = seq<uint8>

  /**
    The texts of `xs` concatenated in order, built by appending one text
    after another as `push_str` does: the reference the arena buffer is
    checked against.
   */
  function Flatten<T>(xs: seq<T>, asStr: T -> Bytes): Bytes
    decreases |xs|
  {
    if |xs| == 0 then []
    else Flatten(xs[..|xs| - 1], asStr) + asStr(xs[|xs| - 1])
  }

  /**
    The sum of the text lengths, computed up front as the buffer's
    capacity: it is the length of the buffer the texts fill.
   */
  function TotalBytes<T>(xs: seq<T>, asStr: T -> Bytes): (n: nat)
    ensures n == |Flatten(xs, asStr)|
    decreases |xs|
  {
    if |xs| == 0 then 0
    else TotalBytes(xs[..|xs| - 1], asStr) + |asStr(xs[|xs| - 1])|
  }

  /**
    The offsets table: entry `i` is the buffer length after the first `i`
    texts have been appended.
   */
  function Offsets<T>(xs: seq<T>, asStr: T -> Bytes): (r: seq<nat>)
    ensures |r| == |xs| + 1
    ensures r[0] == 0
    ensures forall i | 0 <= i <= |xs| :: r[i] == |Flatten(xs[..i], asStr)|
    decreases |xs|
  {
    if |xs| == 0 then [0]
    else
      var init := xs[..|xs| - 1];
      assert forall i | 0 <= i <= |init| :: xs[..i] == init[..i];
      assert xs[..|xs|] == xs;
      Offsets(init, asStr) + [|Flatten(xs, asStr)|]
  }

  /** Flattening a prefix gives a prefix of the flattened whole. */
  lemma {:induction false} FlattenPrefix<T>(xs: seq<T>, k: nat, asStr: T -> Bytes)
    requires k <= |xs|
    ensures Flatten(xs[..k], asStr) <= Flatten(xs, asStr)
    decreases |xs|
  {
    if k < |xs| {
      var init := xs[..|xs| - 1];
      assert xs[..k] == init[..k];
      FlattenPrefix(init, k, asStr);
    } else {
      assert xs[..k] == xs;
    }
  }

  /** Flattening one more value appends exactly that value's text. */
  lemma FlattenStep<T>(xs: seq<T>, i: nat, asStr: T -> Bytes)
    requires i < |xs|
    ensures Flatten(xs[..i + 1], asStr) == Flatten(xs[..i], asStr) + asStr(xs[i])
  {
    assert xs[..i + 1][..i] == xs[..i];
  }

  /**
    The text `text` is cut out of `buffer` by the offsets around handle `h`.
   */
  predicate SliceAt(buffer: Bytes, offsets: seq<nat>, h: nat, text: Bytes) {
    && h + 1 < |offsets|
    && offsets[h] <= offsets[h + 1] <= |buffer|
    && buffer[offsets[h]..offsets[h + 1]] == text
  }

  /**
    The arena layout of `xs`: one more offset than values, starting at 0
    and ending at the buffer length, with every value's text between its
    two offsets.
   */
  predicate ArenaLayout<T>(buffer: Bytes, offsets: seq<nat>, xs: seq<T>, asStr: T -> Bytes) {
    && |offsets| == |xs| + 1
    && offsets[0] == 0
    && offsets[|xs|] == |buffer|
    && forall h | 0 <= h < |xs| :: SliceAt(buffer, offsets, h, asStr(xs[h]))
  }

  /**
    The arena law: the flattened texts and their prefix-sum table are an
    arena layout of `xs`.
   */
  lemma {:induction false} ArenaSlices<T>(xs: seq<T>, asStr: T -> Bytes)
    ensures ArenaLayout(Flatten(xs, asStr), Offsets(xs, asStr), xs, asStr)
  {
    var buffer, offsets := Flatten(xs, asStr), Offsets(xs, asStr);
    assert xs[..|xs|] == xs;
    forall h | 0 <= h < |xs|
      ensures SliceAt(buffer, offsets, h, asStr(xs[h]))
    {
      FlattenStep(xs, h, asStr);
      FlattenPrefix(xs, h + 1, asStr);
      var before := Flatten(xs[..h], asStr);
      var upTo := Flatten(xs[..h + 1], asStr);
      assert buffer[..|upTo|] == upTo;
      assert upTo[|before|..] == asStr(xs[h]);
    }
  }

  /** In an arena layout the offsets never decrease. */
  lemma ArenaLayoutMonotone<T>(buffer: Bytes, offsets: seq<nat>, xs: seq<T>, asStr: T -> Bytes, i: nat, j: nat)
    requires ArenaLayout(buffer, offsets, xs, asStr)
    requires i <= j <= |xs|
    ensures offsets[i] <= offsets[j]
    decreases j - i
  {
    if i < j {
      assert SliceAt(buffer, offsets, i, asStr(xs[i]));
      ArenaLayoutMonotone(buffer, offsets, xs, asStr, i + 1, j);
    }
  }

  /**
    `export_arena()`: appends every value's text in insertion order and
    records the buffer length after each one. The buffer is the flattened
    store, the table is its prefix sums, the last offset is the byte count
    computed up front, and the value of every handle can be cut back out
    of the buffer.
   */
  method ExportArena<T(==)>(s: Interner<T>, asStr: T -> Bytes) returns (arena: Bytes, offsets: seq<nat>)
    ensures arena == Flatten(Export(s), asStr)
    ensures offsets == Offsets(Export(s), asStr)
    ensures |arena| == TotalBytes(s.items, asStr)
    ensures ArenaLayout(arena, offsets, Export(s), asStr)
  {
    var items := s.items;
    var count := |items|;
    arena := [];
    offsets := [0];
    var i := 0;
    while i < count
      invariant 0 <= i <= count
      invariant arena == Flatten(items[..i], asStr)
      invariant offsets == Offsets(items[..i], asStr)
    {
      FlattenStep(items, i, asStr);
      arena := arena + asStr(items[i]);
      offsets := offsets + [|arena|];
      assert items[..i + 1][..i] == items[..i];
      assert offsets == Offsets(items[..i + 1], asStr);
      i := i + 1;
    }
    assert items[..count] == items;
    assert |arena| == TotalBytes(items, asStr);
    ArenaSlices(items, asStr);
  }

  /**
    Cutting handle `h` out of the flattened store gives the text of the
    value `resolve(h)` returns.
   */
  lemma ArenaResolves<T>(s: Interner<T>, asStr: T -> Bytes, h: Handle)
    requires h < Len(s)
    ensures Resolve(s, h).Some?
    ensures SliceAt(Flatten(Export(s), asStr), Offsets(Export(s), asStr), h, asStr(Resolve(s, h).value))
  {
    ArenaSlices(Export(s), asStr);
  }

  /** The texts "hello" and "world" as UTF-8 bytes. */
  const Hello: Bytes := [0x68, 0x65, 0x6C, 0x6C, 0x6F]
  const World: Bytes := [0x77, 0x6F, 0x72, 0x6C, 0x64]

  /**
    Interning "hello" then "world" and flattening gives the buffer
    "helloworld" with offsets 0, 5 and 10.
   */
  lemma HelloWorldArena()
    ensures var s0 := New<Bytes>(U32);
            var s1 := InternOwned(s0, Hello).after;
            var s2 := InternOwned(s1, World).after;
            && Flatten(s2.items, b => b) == Hello + World
            && Offsets(s2.items, b => b) == [0, 5, 10]
  {
    var items := [Hello, World];
    assert InternOwned(InternOwned(New<Bytes>(U32), Hello).after, World).after.items == items;
    assert items[..1] == [Hello] && items[..1][..0] == [];
    assert Flatten(items[..1], b => b) == Hello;
  }
}
