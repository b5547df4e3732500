// Compressed-sparse-row tables as the topology cache builds them: an
// offset array made by prefix sums over per-element counts, a flat backing
// array of the final offset's length, and writes through one cursor per
// element that never leave that element's slot `[off[k], off[k+1])`.

module Csr {
  import opened MeshTypes

  function Min(a: nat, b: nat): nat
  {
    if a <= b then a else b
  }

  /** The sum of a count table. */
  function Sum(counts: seq<nat>): nat
  {
    if counts == [] then 0 else Sum(counts[..|counts| - 1]) + counts[|counts| - 1]
  }

  /** `off` is the prefix-sum table of `counts`: `off[0] = 0` and
      `off[i + 1] = off[i] + counts[i]`. */
  ghost predicate IsOffsets(off: seq<nat>, counts: seq<nat>)
  {
    |off| == |counts| + 1 && off[0] == 0
    && forall i | 0 <= i < |counts| :: off[i + 1] == off[i] + counts[i]
  }

  ghost predicate Monotone(off: seq<nat>)
  {
    forall a, b | 0 <= a <= b < |off| :: off[a] <= off[b]
  }

  /** Each offset is the sum of the counts before it, so the table never
      decreases and ends at the total. */
  lemma {:induction false} OffsetsArePrefixSums(off: seq<nat>, counts: seq<nat>, k: nat)
    requires IsOffsets(off, counts) && k <= |counts|
    ensures off[k] == Sum(counts[..k])
  {
    if k > 0 {
      OffsetsArePrefixSums(off, counts, k - 1);
      assert counts[..k][..k - 1] == counts[..k - 1];
    }
  }

  lemma {:induction false} OffsetsMonotone(off: seq<nat>, counts: seq<nat>)
    requires IsOffsets(off, counts)
    ensures Monotone(off)
    ensures off[|counts|] == Sum(counts)
  {
    forall a, b | 0 <= a <= b < |off|
      ensures off[a] <= off[b]
    {
      OffsetsStep(off, counts, a, b);
    }
    OffsetsArePrefixSums(off, counts, |counts|);
    assert counts[..|counts|] == counts;
  }

  lemma {:induction false} OffsetsStep(off: seq<nat>, counts: seq<nat>, a: nat, b: nat)
    requires IsOffsets(off, counts) && a <= b < |off|
    ensures off[a] <= off[b]
    decreases b - a
  {
    if a < b {
      OffsetsStep(off, counts, a, b - 1);
    }
  }

  /** The offset pass: resize to `n + 1` zeros, then prefix-sum. */
  method BuildOffsets(counts: seq<nat>) returns (off: seq<nat>)
    ensures IsOffsets(off, counts) && Monotone(off)
    ensures off[|counts|] == Sum(counts)
  {
    off := seq(|counts| + 1, _ => 0);
    var i := 0;
    while i < |counts|
      invariant 0 <= i <= |counts| && |off| == |counts| + 1 && off[0] == 0
      invariant forall j | 0 <= j < i :: off[j + 1] == off[j] + counts[j]
    {
      off := off[i + 1 := off[i] + counts[i]];
      i := i + 1;
    }
    OffsetsMonotone(off, counts);
  }

  /** `w` is the prefix-sum table of `counts` computed in `uint32_t`
      arithmetic, each sum taken modulo 2^32. */
  ghost predicate IsWrappedOffsets(w: seq<nat>, counts: seq<nat>)
  {
    |w| == |counts| + 1 && w[0] == 0
    && forall i | 0 <= i < |counts| :: w[i + 1] == (w[i] + counts[i]) % U32_MODULUS
  }

  /** A `uint32_t` offset table holds every true offset modulo 2^32, and it
      is the true table iff the total of the counts stays below 2^32. */
  lemma {:induction false} WrappedOffsets(off: seq<nat>, w: seq<nat>, counts: seq<nat>)
    requires IsOffsets(off, counts) && IsWrappedOffsets(w, counts)
    ensures forall k | 0 <= k < |off| :: w[k] == off[k] % U32_MODULUS
    ensures w == off <==> Sum(counts) < U32_MODULUS
  {
    forall k | 0 <= k < |off|
      ensures w[k] == off[k] % U32_MODULUS
    {
      WrappedOffsetAt(off, w, counts, k);
    }
    OffsetsMonotone(off, counts);
    if Sum(counts) < U32_MODULUS {
      forall k | 0 <= k < |off|
        ensures w[k] == off[k]
      {
        assert off[k] <= off[|counts|];
      }
    } else {
      assert w[|counts|] < U32_MODULUS <= off[|counts|];
    }
  }

  lemma {:induction false} WrappedOffsetAt(off: seq<nat>, w: seq<nat>, counts: seq<nat>, k: nat)
    requires IsOffsets(off, counts) && IsWrappedOffsets(w, counts) && k < |off|
    ensures w[k] == off[k] % U32_MODULUS
  {
    if k > 0 {
      WrappedOffsetAt(off, w, counts, k - 1);
    }
  }

  /** One compressed-sparse-row relation while it is being filled: the
      offset table, the flat backing array and one write cursor per
      element. */
  datatype Table = Table(off: seq<nat>, flat: seq<nat>, cursor: seq<nat>)
  {
    /** Element `k` exists and its slot lies inside the backing array. */
    predicate HasSlot(k: nat)
    {
      k < |cursor| && k + 1 < |off| && off[k + 1] <= |flat|
    }

    /** One cursor write for element `k`: store `x` at the cursor and
        advance it, unless the cursor already reached the end of the slot. */
    function Put(k: nat, x: nat): (t: Table)
      requires HasSlot(k)
      ensures t.off == off && |t.flat| == |flat| && |t.cursor| == |cursor|
      ensures forall p | 0 <= p < |flat| && p != cursor[k] :: t.flat[p] == flat[p]
      ensures cursor[k] < off[k + 1] ==> t.flat[cursor[k]] == x
      ensures forall i | 0 <= i < |cursor| && i != k :: t.cursor[i] == cursor[i]
      ensures t.cursor[k] == if cursor[k] < off[k + 1] then cursor[k] + 1 else cursor[k]
    {
      if cursor[k] < off[k + 1] then Table(off, flat[cursor[k] := x], cursor[k := cursor[k] + 1])
      else this
    }

    /** The table holds the per-element lists `L` as far as each slot's
        width allows: slot `k` starts with `L[k]`, cut to its width, and
        the rest of the slot is still zero; the cursor of `k` is just past
        what was written. */
    ghost predicate Represents(L: seq<seq<nat>>)
    {
      && |off| == |L| + 1 && |cursor| == |L| && Monotone(off) && off[|L|] == |flat|
      && (forall k | 0 <= k < |L| :: cursor[k] == off[k] + Min(|L[k]|, off[k + 1] - off[k]))
      && Holds(off, flat, L)
    }
  }

  /** Entry `j` of a slot holding list `l`: the list's entry, or zero past its end. */
  function Cell(l: seq<nat>, j: nat): nat
  {
    if j < |l| then l[j] else 0
  }

  /** The finished relation: slot `k` of `flat` holds `L[k]` cut to the
      slot's width and padded with zeros. */
  ghost predicate Holds(off: seq<nat>, flat: seq<nat>, L: seq<seq<nat>>)
  {
    && |off| == |L| + 1 && Monotone(off) && off[|L|] == |flat|
    && (forall k, j | 0 <= k < |L| && 0 <= j < off[k + 1] - off[k] :: flat[off[k] + j] == Cell(L[k], j))
  }

  /** The table as the build starts it: a zero-filled backing array as long
      as the last offset and every cursor at its slot's start. */
  function Start(off: seq<nat>): (t: Table)
    requires |off| >= 1
    ensures t.off == off && |t.flat| == off[|off| - 1] && |t.cursor| == |off| - 1
  {
    Table(off, seq(off[|off| - 1], _ => 0), off[..|off| - 1])
  }

  /** A fresh table holds the empty lists. */
  lemma StartRepresents(off: seq<nat>)
    requires |off| >= 1 && Monotone(off)
    ensures Start(off).Represents(seq(|off| - 1, _ => []))
  {
  }

  /** A cursor write appends to exactly one list. */
  lemma PutAppends(t: Table, L: seq<seq<nat>>, k: nat, x: nat)
    requires t.Represents(L) && k < |L|
    ensures t.HasSlot(k)
    ensures t.Put(k, x).Represents(L[k := L[k] + [x]])
  {
    assert t.off[k + 1] <= t.off[|L|];
    var r := t.Put(k, x);
    var L' := L[k := L[k] + [x]];
    forall i | 0 <= i < |L'|
      ensures r.cursor[i] == r.off[i] + Min(|L'[i]|, r.off[i + 1] - r.off[i])
    {
      PutCursor(t, L, k, x, i);
    }
    forall i, j | 0 <= i < |L'| && 0 <= j < r.off[i + 1] - r.off[i]
      ensures r.flat[r.off[i] + j] == Cell(L'[i], j)
    {
      PutCell(t, L, k, x, i, j);
    }
  }

  /** One cursor after a cursor write. */
  lemma PutCursor(t: Table, L: seq<seq<nat>>, k: nat, x: nat, i: nat)
    requires t.Represents(L) && k < |L| && i < |L|
    ensures t.HasSlot(k)
    ensures var L' := L[k := L[k] + [x]];
            t.Put(k, x).cursor[i] == t.off[i] + Min(|L'[i]|, t.off[i + 1] - t.off[i])
  {
    assert t.off[k + 1] <= t.off[|L|];
    assert t.cursor[i] == t.off[i] + Min(|L[i]|, t.off[i + 1] - t.off[i]);
  }

  /** One entry of the table after a cursor write. */
  lemma PutCell(t: Table, L: seq<seq<nat>>, k: nat, x: nat, i: nat, j: nat)
    requires t.Represents(L) && k < |L| && i < |L| && j < t.off[i + 1] - t.off[i]
    ensures t.HasSlot(k)
    ensures t.Put(k, x).flat[t.off[i] + j] == Cell(L[k := L[k] + [x]][i], j)
  {
    var off, flat, cursor := t.off, t.flat, t.cursor;
    assert off[k + 1] <= off[|L|] && off[i + 1] <= off[|L|];
    var r := t.Put(k, x);
    var L' := L[k := L[k] + [x]];
    var w := off[k + 1] - off[k];
    assert cursor[k] == off[k] + Min(|L[k]|, w);
    assert flat[off[i] + j] == Cell(L[i], j);
    if i < k {
      assert off[i + 1] <= off[k];
      assert r.flat[off[i] + j] == flat[off[i] + j];
    } else if i > k {
      assert off[k + 1] <= off[i];
      assert r.flat[off[i] + j] == flat[off[i] + j];
    } else if cursor[k] < off[k + 1] {
      assert |L[k]| < w && cursor[k] == off[k] + |L[k]|;
      if j == |L[k]| {
        assert r.flat[off[k] + j] == x;
      } else {
        assert off[k] + j != cursor[k];
        assert r.flat[off[k] + j] == flat[off[k] + j];
      }
    } else {
      assert r == t;
      assert w <= |L[k]|;
    }
  }

  /** The slot of element `k`. */
  function Slot(flat: seq<nat>, off: seq<nat>, k: nat): seq<nat>
    requires k + 1 < |off| && off[k] <= off[k + 1] <= |flat|
  {
    flat[off[k]..off[k + 1]]
  }

  /** A finished relation's slot holds its list cut to the slot's width,
      padded with zeros; a slot exactly as wide as its list holds that list. */
  lemma SlotHoldsList(off: seq<nat>, flat: seq<nat>, L: seq<seq<nat>>, k: nat)
    requires Holds(off, flat, L) && k < |L|
    ensures off[k] <= off[k + 1] <= |flat|
    ensures off[k + 1] - off[k] == |L[k]| ==> Slot(flat, off, k) == L[k]
    ensures off[k + 1] - off[k] <= |L[k]| ==> Slot(flat, off, k) == L[k][..off[k + 1] - off[k]]
    ensures forall j | 0 <= j < |Slot(flat, off, k)| :: Slot(flat, off, k)[j] == Cell(L[k], j)
  {
    assert off[k + 1] <= off[|L|];
    forall j | 0 <= j < |Slot(flat, off, k)|
      ensures Slot(flat, off, k)[j] == Cell(L[k], j)
    {
      assert Slot(flat, off, k)[j] == flat[off[k] + j];
      assert flat[off[k] + j] == Cell(L[k], j);
    }
  }

  // ------------------------------------------------- lists and their writes

  /** `x` repeated `n` times. */
  function Repeat(x: nat, n: nat): (s: seq<nat>)
    ensures |s| == n && forall i | 0 <= i < n :: s[i] == x
  {
    if n == 0 then [] else Repeat(x, n - 1) + [x]
  }

  /** Append `x` to list `L[k]` for each key `k` of `ks` in turn; keys
      outside `L` are skipped. */
  function Scatter(L: seq<seq<nat>>, ks: seq<nat>, x: nat): (r: seq<seq<nat>>)
    ensures |r| == |L|
    decreases |ks|
  {
    if ks == [] then L
    else
      var r := Scatter(L, ks[..|ks| - 1], x);
      var k := ks[|ks| - 1];
      if k < |r| then r[k := r[k] + [x]] else r
  }

  /** Scattering appends to each list one copy of `x` per occurrence of its key. */
  lemma {:induction false} ScatterAppends(L: seq<seq<nat>>, ks: seq<nat>, x: nat)
    ensures forall k | 0 <= k < |L| :: Scatter(L, ks, x)[k] == L[k] + Repeat(x, multiset(ks)[k])
    decreases |ks|
  {
    if ks != [] {
      var ks' := ks[..|ks| - 1];
      assert ks == ks' + [ks[|ks| - 1]];
      ScatterAppends(L, ks', x);
    }
  }

  /** A repeated value holds only that value. */
  lemma RepeatHas(x: nat, n: nat, y: nat)
    ensures y in Repeat(x, n) <==> n > 0 && y == x
  {
    if n > 0 {
      assert Repeat(x, n)[0] == x;
    }
  }

  /** Scattering a first key appends to that key's list, then scatters the rest. */
  lemma {:induction false} ScatterCons(L: seq<seq<nat>>, ks: seq<nat>, x: nat)
    requires ks != [] && ks[0] < |L|
    ensures Scatter(L, ks, x) == Scatter(L[ks[0] := L[ks[0]] + [x]], ks[1..], x)
    decreases |ks|
  {
    if |ks| == 1 {
      assert ks[..0] == [] && ks[1..] == [];
    } else {
      var init := ks[..|ks| - 1];
      ScatterCons(L, init, x);
      assert ks[1..][..|ks| - 2] == init[1..];
    }
  }

  /** Cursor writes of each of `xs` in turn for element `k`. */
  function PutAll(t: Table, k: nat, xs: seq<nat>): (r: Table)
    requires t.HasSlot(k)
    ensures r.off == t.off && |r.flat| == |t.flat| && |r.cursor| == |t.cursor|
    decreases |xs|
  {
    if xs == [] then t else PutAll(t.Put(k, xs[0]), k, xs[1..])
  }

  /** Cursor writes of `x` for each element of `ks` in turn. */
  function PutEach(t: Table, ks: seq<nat>, x: nat): (r: Table)
    requires forall i | 0 <= i < |ks| :: t.HasSlot(ks[i])
    ensures r.off == t.off && |r.flat| == |t.flat| && |r.cursor| == |t.cursor|
    decreases |ks|
  {
    if ks == [] then t
    else
      PutKeepsSlots(t, ks[0], x);
      PutEach(t.Put(ks[0], x), ks[1..], x)
  }

  /** A cursor write leaves every slot in place. */
  lemma PutKeepsSlots(t: Table, k: nat, x: nat)
    requires t.HasSlot(k)
    ensures forall j: nat :: t.Put(k, x).HasSlot(j) <==> t.HasSlot(j)
  {
  }

  /** A table holding lists has a slot for each of them. */
  lemma RepresentsSlots(t: Table, L: seq<seq<nat>>)
    requires t.Represents(L)
    ensures forall k | 0 <= k < |L| :: t.HasSlot(k)
  {
    forall k | 0 <= k < |L|
      ensures t.HasSlot(k)
    {
      assert t.off[k + 1] <= t.off[|L|];
    }
  }

  /** Writing a list for one element appends it to that element's list. */
  lemma {:induction false} PutAllAppends(t: Table, L: seq<seq<nat>>, k: nat, xs: seq<nat>)
    requires t.Represents(L) && k < |L|
    ensures t.HasSlot(k)
    ensures PutAll(t, k, xs).Represents(L[k := L[k] + xs])
    decreases |xs|
  {
    RepresentsSlots(t, L);
    if xs == [] {
      assert L[k] + xs == L[k];
      assert L[k := L[k] + xs] == L;
    } else {
      var L1 := L[k := L[k] + [xs[0]]];
      PutAppends(t, L, k, xs[0]);
      PutAllAppends(t.Put(k, xs[0]), L1, k, xs[1..]);
      assert L[k] + xs == (L[k] + [xs[0]]) + xs[1..];
      assert L1[k := L1[k] + xs[1..]] == L[k := L[k] + xs];
    }
  }

  /** Writing one value for each of several elements scatters it. */
  lemma {:induction false} PutEachScatters(t: Table, L: seq<seq<nat>>, ks: seq<nat>, x: nat)
    requires t.Represents(L) && forall i | 0 <= i < |ks| :: ks[i] < |L|
    ensures forall i | 0 <= i < |ks| :: t.HasSlot(ks[i])
    ensures PutEach(t, ks, x).Represents(Scatter(L, ks, x))
    decreases |ks|
  {
    RepresentsSlots(t, L);
    if ks != [] {
      PutAppends(t, L, ks[0], x);
      var L1 := L[ks[0] := L[ks[0]] + [x]];
      PutEachScatters(t.Put(ks[0], x), L1, ks[1..], x);
      ScatterCons(L, ks, x);
    }
  }

  /** Writing two lists for one element in turn writes their concatenation. */
  lemma {:induction false} PutAllConcat(t: Table, k: nat, a: seq<nat>, b: seq<nat>)
    requires t.HasSlot(k)
    ensures PutAll(PutAll(t, k, a), k, b) == PutAll(t, k, a + b)
    decreases |a|
  {
    if a == [] {
      assert a + b == b;
    } else {
      var t1 := t.Put(k, a[0]);
      PutAllConcat(t1, k, a[1..], b);
      assert (a + b)[0] == a[0] && (a + b)[1..] == a[1..] + b;
      assert PutAll(t, k, a + b) == PutAll(t1, k, a[1..] + b);
      assert PutAll(t, k, a) == PutAll(t1, k, a[1..]);
    }
  }

  /** The lists `K[0..k)` with the later ones still empty: what a table
      filled element by element holds after `k` elements. */
  function Prefix(K: seq<seq<nat>>, k: nat): (L: seq<seq<nat>>)
    ensures |L| == |K|
    ensures forall g | 0 <= g < |K| :: L[g] == if g < k then K[g] else []
  {
    seq(|K|, g requires 0 <= g < |K| => if g < k then K[g] else [])
  }

  /** Filling one more element extends the prefix; all of them give `K`. */
  lemma PrefixStep(K: seq<seq<nat>>, k: nat)
    requires k < |K|
    ensures Prefix(K, k)[k := Prefix(K, k)[k] + K[k]] == Prefix(K, k + 1)
    ensures Prefix(K, 0) == seq(|K|, _ => [])
    ensures Prefix(K, |K|) == K
  {
    assert Prefix(K, k)[k] + K[k] == K[k];
  }

  /** Writing element `k`'s list into a table filled up to `k` fills it up
      to `k + 1`. */
  lemma PrefixFill(t: Table, K: seq<seq<nat>>, k: nat)
    requires t.Represents(Prefix(K, k)) && k < |K|
    ensures t.HasSlot(k) && PutAll(t, k, K[k]).Represents(Prefix(K, k + 1))
  {
    PutAllAppends(t, Prefix(K, k), k, K[k]);
    PrefixStep(K, k);
  }

  // ------------------------------------------------------------ span access

  /** `size_t`, the width of the accessors' index arithmetic. */
  const SIZE_MODULUS: nat := 0x1_0000_0000_0000_0000

  /** An offset table that is empty, as after a clear, or consistent with
      its backing array. */
  ghost predicate SpanTable(flat: seq<nat>, off: seq<nat>)
  {
    off == [] || (Monotone(off) && off[|off| - 1] == |flat|)
  }

  /** The accessors' guard as written: `i >= off.size() - 1` with the
      subtraction in `size_t`, so an empty table makes the bound wrap to
      the largest value. True means "return an empty span". */
  function SpanGuardAsWritten(off: seq<nat>, i: nat): (empty: bool)
    requires |off| < SIZE_MODULUS
    ensures |off| >= 1 ==> (empty <==> i + 1 >= |off|)
    ensures off == [] ==> (empty <==> i >= SIZE_MODULUS - 1)
  {
    i >= (|off| + SIZE_MODULUS - 1) % SIZE_MODULUS
  }

  /** On an empty table the guard lets every index below the wrapped bound
      through, index 0 included, and the accessor then reads `off[i]` of a
      table that has no entries. */
  lemma SpanGuardWraps(i: nat)
    requires i < SIZE_MODULUS - 1
    ensures !SpanGuardAsWritten([], i)
  {
  }

  /** The span of element `i`, guarded as intended: empty when `i` names
      no slot, otherwise the slot `[off[i], off[i + 1])`. */
  function SpanOf(flat: seq<nat>, off: seq<nat>, i: nat): (s: seq<nat>)
    requires SpanTable(flat, off)
    ensures i + 1 >= |off| ==> s == []
    ensures i + 1 < |off| ==> off[i] <= off[i + 1] <= |flat| && s == Slot(flat, off, i)
  {
    if i + 1 >= |off| then [] else
      assert off[i + 1] <= off[|off| - 1];
      Slot(flat, off, i)
  }
}
