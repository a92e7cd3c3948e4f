/** Generic sequence helpers: fixed-width chunking and the pairwise
    duplicate scan. */
module Collection {

  function Min(a: int, b: int): int {
    if a <= b then a else b
  }

  /** Flattening a sequence of chunks back into one sequence. */
  function Concat<T>(chunks: seq<seq<T>>): seq<T> {
    if |chunks| == 0 then [] else chunks[0] + Concat(chunks[1..])
  }

  // ---------------------------------------------------------------------
  // splitArrayAsNLength

  /** `splitArrayAsNLength(vars, count)`: a flat-map over the indices of
      `vars` that emits `vars.slice(index, index + count)` at every index that
      is a multiple of `count`, and nothing elsewhere. For `count == 0` the
      remainder `index % 0` is NaN in JavaScript, which is never `0`, so no
      chunk is emitted. */
  function SplitArrayAsNLength<T>(vars: seq<T>, count: nat): (chunks: seq<seq<T>>)
    ensures |chunks| <= |vars|
    ensures count == 0 ==> chunks == []
  {
    FlatMapFrom(vars, count, 0)
  }

  /** The flat-map from position `index` onwards. */
  function FlatMapFrom<T>(vars: seq<T>, count: nat, index: nat): (chunks: seq<seq<T>>)
    ensures index <= |vars| ==> |chunks| <= |vars| - index
    ensures count == 0 ==> chunks == []
    decreases |vars| - index
  {
    if index >= |vars| then []
    else
      (if count == 0 || index % count != 0 then [] else [vars[index..Min(index + count, |vars|)]])
      + FlatMapFrom(vars, count, index + 1)
  }

  /** The number of chunks of width `count` that cover `n` elements: the
      ceiling of `n / count`. */
  function ChunkCount(n: nat, count: nat): nat
    requires count > 0
  {
    (n + count - 1) / count
  }

  /** Chunk number `k` by its positions: `vars[k*count .. min((k+1)*count, |vars|)]`. */
  function Chunk<T>(vars: seq<T>, count: nat, k: nat): (c: seq<T>)
    requires count > 0 && k < ChunkCount(|vars|, count)
  {
    ChunkBounds(|vars|, count, k);
    vars[k * count .. Min((k + 1) * count, |vars|)]
  }

  // ---------------------------------------------------------------------
  // Arithmetic facts about multiples

  lemma MulMono(a: nat, b: nat, c: nat)
    requires a <= b
    ensures a * c <= b * c
  {
  }

  /** Quotient and remainder of `q * c + r` for a remainder in range. */
  lemma DivModUnique(q: nat, c: nat, r: nat)
    requires 0 <= r < c
    ensures (q * c + r) / c == q && (q * c + r) % c == r
  {
    var x := q * c + r;
    var d, m := x / c, x % c;
    assert x == d * c + m;
    if q > d {
      MulMono(d + 1, q, c);
      assert false;
    } else if q < d {
      MulMono(q + 1, d, c);
      assert false;
    }
  }

  /** Every chunk start lies inside `vars`, and the last chunk reaches its end. */
  lemma ChunkCountBounds(n: nat, c: nat)
    requires c > 0
    ensures ChunkCount(n, c) * c >= n
    ensures n > 0 ==> ChunkCount(n, c) > 0 && (ChunkCount(n, c) - 1) * c < n
    ensures n == 0 ==> ChunkCount(n, c) == 0
  {
    var N := ChunkCount(n, c);
    assert n + c - 1 == N * c + (n + c - 1) % c;
    if n == 0 {
      DivModUnique(0, c, c - 1);
    }
  }

  lemma ChunkBounds(n: nat, c: nat, k: nat)
    requires c > 0 && k < ChunkCount(n, c)
    ensures k * c < n && k * c + c == (k + 1) * c
  {
    ChunkCountBounds(n, c);
    MulMono(k, ChunkCount(n, c) - 1, c);
  }

  // ---------------------------------------------------------------------
  // The flat-map produces exactly the chunks

  /** Between two multiples of `c` the flat-map emits nothing. */
  lemma {:induction false} SkipUnaligned<T>(vars: seq<T>, c: nat, q: nat, i: nat)
    requires c > 0 && q * c < i <= q * c + c
    ensures FlatMapFrom(vars, c, i) == FlatMapFrom(vars, c, q * c + c)
    decreases q * c + c - i
  {
    if i < q * c + c && i < |vars| {
      DivModUnique(q, c, i - q * c);
      SkipUnaligned(vars, c, q, i + 1);
    }
  }

  /** From a multiple of `c`, the flat-map emits one chunk and moves to the
      next multiple. */
  lemma FlatMapStep<T>(vars: seq<T>, c: nat, q: nat)
    requires c > 0 && q < ChunkCount(|vars|, c)
    ensures FlatMapFrom(vars, c, q * c) == [Chunk(vars, c, q)] + FlatMapFrom(vars, c, (q + 1) * c)
  {
    ChunkBounds(|vars|, c, q);
    DivModUnique(q, c, 0);
    SkipUnaligned(vars, c, q, q * c + 1);
  }

  lemma FlatMapEnd<T>(vars: seq<T>, c: nat)
    requires c > 0
    ensures FlatMapFrom(vars, c, ChunkCount(|vars|, c) * c) == []
  {
    ChunkCountBounds(|vars|, c);
  }

  lemma {:induction false} FlatMapAligned<T>(vars: seq<T>, c: nat, q: nat)
    requires c > 0 && q <= ChunkCount(|vars|, c)
    ensures |FlatMapFrom(vars, c, q * c)| == ChunkCount(|vars|, c) - q
    ensures forall k :: 0 <= k < ChunkCount(|vars|, c) - q ==>
              FlatMapFrom(vars, c, q * c)[k] == Chunk(vars, c, q + k)
    decreases ChunkCount(|vars|, c) - q
  {
    if q == ChunkCount(|vars|, c) {
      FlatMapEnd(vars, c);
    } else {
      FlatMapStep(vars, c, q);
      FlatMapAligned(vars, c, q + 1);
    }
  }

  /** The chunks of `splitArrayAsNLength`: there are ceil(|vars| / count) of
      them and chunk `k` is `vars[k*count .. min((k+1)*count, |vars|)]`. */
  lemma SplitShape<T>(vars: seq<T>, count: nat)
    requires count > 0
    ensures |SplitArrayAsNLength(vars, count)| == ChunkCount(|vars|, count)
    ensures |vars| > 0 ==> |SplitArrayAsNLength(vars, count)| > 0
    ensures forall k :: 0 <= k < |SplitArrayAsNLength(vars, count)| ==>
              SplitArrayAsNLength(vars, count)[k] == Chunk(vars, count, k)
  {
    FlatMapAligned(vars, count, 0);
    ChunkCountBounds(|vars|, count);
  }

  /** Every chunk but the last is full; the last holds between 1 and `count`
      elements, so a short remainder is kept. */
  lemma SplitChunkLengths<T>(vars: seq<T>, count: nat)
    requires count > 0
    ensures var chunks := SplitArrayAsNLength(vars, count);
      (forall k :: 0 <= k < |chunks| - 1 ==> |chunks[k]| == count) &&
      (|chunks| > 0 ==> 1 <= |chunks[|chunks| - 1]| <= count)
  {
    SplitShape(vars, count);
    var chunks := SplitArrayAsNLength(vars, count);
    forall k | 0 <= k < |chunks|
      ensures 1 <= |chunks[k]| <= count
      ensures k < |chunks| - 1 ==> |chunks[k]| == count
    {
      ChunkLength(vars, count, k);
    }
  }

  /** The length of one chunk: full unless it is the last. */
  lemma ChunkLength<T>(vars: seq<T>, c: nat, k: nat)
    requires c > 0 && k < ChunkCount(|vars|, c)
    ensures 1 <= |Chunk(vars, c, k)| <= c
    ensures k < ChunkCount(|vars|, c) - 1 ==> |Chunk(vars, c, k)| == c
  {
    var N := ChunkCount(|vars|, c);
    ChunkBounds(|vars|, c, k);
    ChunkCountBounds(|vars|, c);
    if k < N - 1 {
      MulMono(k + 1, N - 1, c);
    }
  }

  /** An exact tiling: `|vars| / count` chunks, all full. */
  lemma SplitExact<T>(vars: seq<T>, count: nat)
    requires count > 0 && |vars| % count == 0
    ensures |SplitArrayAsNLength(vars, count)| == |vars| / count
    ensures forall k :: 0 <= k < |SplitArrayAsNLength(vars, count)| ==>
              |SplitArrayAsNLength(vars, count)[k]| == count
  {
    var q := |vars| / count;
    assert |vars| == q * count;
    DivModUnique(q, count, count - 1);
    SplitShape(vars, count);
    SplitChunkLengths(vars, count);
    var chunks := SplitArrayAsNLength(vars, count);
    if q > 0 {
      ChunkBounds(|vars|, count, q - 1);
      assert (q - 1) * count + count == q * count;
    }
  }

  lemma ConcatCons<T>(x: seq<T>, xs: seq<seq<T>>)
    ensures Concat([x] + xs) == x + Concat(xs)
  {
    assert ([x] + xs)[1..] == xs;
  }

  /** Positions `s + 1 .. s + c - 1` after a multiple `s` of `c` are not
      multiples; `s + c` is. */
  lemma AlignedOffsets(s: nat, c: nat, r: nat)
    requires c > 0 && s % c == 0 && r <= c
    ensures (s + r) % c == (if r == c then 0 else r)
  {
    var q := s / c;
    assert s == q * c;
    if r == c {
      DivModUnique(q + 1, c, 0);
      assert (q + 1) * c == s + c;
    } else {
      DivModUnique(q, c, r);
    }
  }

  /** The flat-map at a multiple `s` of `c` as one chunk and the rest. */
  lemma {:induction false} FlatMapAt<T>(vars: seq<T>, c: nat, s: nat)
    requires c > 0 && s % c == 0 && s < |vars|
    ensures FlatMapFrom(vars, c, s) == [vars[s..Min(s + c, |vars|)]] + FlatMapFrom(vars, c, s + c)
  {
    AlignedOffsets(s, c, 0);
    SkipFrom(vars, c, s, 1);
  }

  lemma {:induction false} SkipFrom<T>(vars: seq<T>, c: nat, s: nat, r: nat)
    requires c > 0 && s % c == 0 && 0 < r <= c
    ensures FlatMapFrom(vars, c, s + r) == FlatMapFrom(vars, c, s + c)
    decreases c - r
  {
    if r < c && s + r < |vars| {
      AlignedOffsets(s, c, r);
      SkipFrom(vars, c, s, r + 1);
    }
  }

  lemma {:induction false} ConcatFrom<T>(vars: seq<T>, c: nat, s: nat)
    requires c > 0 && s % c == 0 && s <= |vars|
    ensures Concat(FlatMapFrom(vars, c, s)) == vars[s..]
    decreases |vars| - s
  {
    if s < |vars| {
      FlatMapAt(vars, c, s);
      var chunk, rest := vars[s..Min(s + c, |vars|)], FlatMapFrom(vars, c, s + c);
      ConcatCons(chunk, rest);
      AlignedOffsets(s, c, c);
      if s + c <= |vars| {
        ConcatFrom(vars, c, s + c);
        assert vars[s..] == chunk + vars[s + c..];
      }
    }
  }

  /** Concatenating the chunks gives back the input. */
  lemma SplitConcat<T>(vars: seq<T>, count: nat)
    requires count > 0
    ensures Concat(SplitArrayAsNLength(vars, count)) == vars
  {
    AlignedOffsets(0, count, 0);
    ConcatFrom(vars, count, 0);
  }

  /** An exact tiling with at least one chunk: the first chunk is the first
      `count` values, every chunk is full, and the first chunk followed by
      the others is the input. */
  lemma SplitHead<T>(vars: seq<T>, count: nat)
    requires 0 < count <= |vars| && |vars| % count == 0
    ensures var chunks := SplitArrayAsNLength(vars, count);
      |chunks| > 0 && chunks[0] == vars[..count] &&
      (forall i :: 0 <= i < |chunks| ==> |chunks[i]| == count) &&
      vars == chunks[0] + Concat(chunks[1..])
  {
    var chunks := SplitArrayAsNLength(vars, count);
    SplitShape(vars, count);
    SplitExact(vars, count);
    SplitConcat(vars, count);
    assert chunks[0] == Chunk(vars, count, 0);
    assert chunks == [chunks[0]] + chunks[1..];
    ConcatCons(chunks[0], chunks[1..]);
  }

  lemma {:induction false} ConcatSlice<T>(rows: seq<seq<T>>, w: nat, k: nat)
    requires forall i :: 0 <= i < |rows| ==> |rows[i]| == w
    requires k < |rows|
    ensures |Concat(rows)| == |rows| * w
    ensures k * w + w <= |Concat(rows)| && Concat(rows)[k * w..k * w + w] == rows[k]
  {
    var rest := rows[1..];
    if k == 0 {
      ConcatLength(rest, w);
      assert Concat(rows)[..w] == rows[0];
    } else {
      ConcatSlice(rest, w, k - 1);
      assert (k - 1) * w + w == k * w;
      assert Concat(rows)[k * w..k * w + w] == Concat(rest)[(k - 1) * w..(k - 1) * w + w];
    }
  }

  lemma {:induction false} ConcatLength<T>(rows: seq<seq<T>>, w: nat)
    requires forall i :: 0 <= i < |rows| ==> |rows[i]| == w
    ensures |Concat(rows)| == |rows| * w
  {
    if |rows| > 0 {
      ConcatLength(rows[1..], w);
    }
  }

  /** Chunking undoes concatenation of equal-width rows. */
  lemma SplitOfConcat<T>(rows: seq<seq<T>>, w: nat)
    requires w > 0
    requires forall i :: 0 <= i < |rows| ==> |rows[i]| == w
    ensures SplitArrayAsNLength(Concat(rows), w) == rows
  {
    var vars := Concat(rows);
    ConcatLength(rows, w);
    DivModUnique(|rows|, w, w - 1);
    SplitShape(vars, w);
    var chunks := SplitArrayAsNLength(vars, w);
    forall k | 0 <= k < |rows|
      ensures chunks[k] == rows[k]
    {
      ConcatSlice(rows, w, k);
      ChunkBounds(|vars|, w, k);
      MulMono(k + 1, |rows|, w);
    }
  }

  /** An element of the concatenation comes from one of the chunks, and
      every element of a chunk is in the concatenation. */
  lemma {:induction false} InConcat<T>(chunks: seq<seq<T>>, x: T)
    ensures x in Concat(chunks) <==> exists i :: 0 <= i < |chunks| && x in chunks[i]
  {
    if |chunks| > 0 {
      InConcat(chunks[1..], x);
      if x in chunks[0] {
        assert 0 < |chunks| && x in chunks[0];
      }
      if exists i :: 0 <= i < |chunks[1..]| && x in chunks[1..][i] {
        var i :| 0 <= i < |chunks[1..]| && x in chunks[1..][i];
        assert x in chunks[i + 1];
      }
      if exists i :: 0 <= i < |chunks| && x in chunks[i] {
        var i :| 0 <= i < |chunks| && x in chunks[i];
        if i > 0 {
          assert x in chunks[1..][i - 1];
        }
      }
    }
  }

  // ---------------------------------------------------------------------
  // hasDuplicated

  /** Two different positions, the earlier one first, hold values the
      comparator calls equal. */
  predicate Duplicated<T>(values: seq<T>, eq: (T, T) -> bool) {
    exists i, j :: 0 <= i < j < |values| && eq(values[i], values[j])
  }

  /** `hasDuplicated`: the nested scan over pairs `i < j`, stopping at the
      first equal pair. */
  method HasDuplicated<T>(values: seq<T>, eq: (T, T) -> bool) returns (r: bool)
    ensures r <==> Duplicated(values, eq)
    ensures |values| <= 1 ==> !r
  {
    for i := 0 to |values|
      invariant forall a, b :: 0 <= a < i && a < b < |values| ==> !eq(values[a], values[b])
    {
      for j := i + 1 to |values|
        invariant forall b :: i < b < j ==> !eq(values[i], values[b])
      {
        if eq(values[i], values[j]) {
          return true;
        }
      }
    }
    return false;
  }
}
