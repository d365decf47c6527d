/** The overlapping sliding-window chunker of chunker.py.

    A cursor `start` begins at 0; while it is inside the text the loop emits
    the window `text[start:start+chunk_size]` (Python slicing clamps the end to
    the text) and moves the cursor to `start + chunk_size - overlap`.
    Positions are characters (Unicode scalar values). */
module Chunker {

  function Min(a: int, b: int): int { if a <= b then a else b }

  /** How far the cursor moves per emitted chunk. */
  function Step(chunkSize: nat, overlap: nat): nat
    requires overlap < chunkSize
  {
    chunkSize - overlap
  }

  /** The reference definition of chunk `i`: the window that starts at
      `i * step`, clamped to the end of the text. */
  function Window(text: string, chunkSize: nat, overlap: nat, i: nat): string
    requires overlap < chunkSize
    requires i * Step(chunkSize, overlap) < |text|
  {
    var start := i * Step(chunkSize, overlap);
    text[start..Min(start + chunkSize, |text|)]
  }

  /** ceil(L / step): the number of cursor positions 0, step, 2*step, ... below L. */
  function NumChunks(len: nat, chunkSize: nat, overlap: nat): nat
    requires overlap < chunkSize
  {
    (len + Step(chunkSize, overlap) - 1) / Step(chunkSize, overlap)
  }

  /** The chunks the loop emits once its cursor has reached `start`. */
  function ChunksFrom(text: string, chunkSize: nat, overlap: nat, start: nat): seq<string>
    requires overlap < chunkSize
    decreases |text| - start
  {
    if start >= |text| then []
    else [text[start..Min(start + chunkSize, |text|)]]
         + ChunksFrom(text, chunkSize, overlap, start + chunkSize - overlap)
  }

  /** The value `chunk_text(text, chunk_size, overlap)` returns. */
  function Chunks(text: string, chunkSize: nat, overlap: nat): seq<string>
    requires overlap < chunkSize
  {
    ChunksFrom(text, chunkSize, overlap, 0)
  }

  /** chunk_text, as the source runs it: a while loop that appends a window
      and moves the cursor back by `overlap` from the window's end. The measure
      `|text| - start` decreases because the step is positive. */
  method ChunkText(text: string, chunkSize: nat := 500, overlap: nat := 50) returns (chunks: seq<string>)
    requires overlap < chunkSize
    ensures chunks == Chunks(text, chunkSize, overlap)
    ensures |chunks| == NumChunks(|text|, chunkSize, overlap)
    ensures forall i :: 0 <= i < |chunks| ==>
              i * Step(chunkSize, overlap) < |text| && chunks[i] == Window(text, chunkSize, overlap, i)
  {
    chunks := [];
    var start: nat := 0;
    while start < |text|
      invariant chunks + ChunksFrom(text, chunkSize, overlap, start) == Chunks(text, chunkSize, overlap)
      decreases |text| - start
    {
      var end := start + chunkSize;
      var chunk := text[start..Min(end, |text|)];
      chunks := chunks + [chunk];
      start := end - overlap;
    }
    ChunksClosedForm(text, chunkSize, overlap);
  }

  // ---------------------------------------------------------------------
  // Closed form of the emitted sequence

  // Euclidean division facts used for the ceiling in NumChunks.

  lemma MulMono(k: int, d: int)
    requires d > 0 && k >= 1
    ensures k * d >= d
  {
  }

  lemma DivUnique(a: int, d: int, q: int, r: int)
    requires d > 0 && 0 <= r < d && a == q * d + r
    ensures a / d == q
  {
    var q0, r0 := a / d, a % d;
    assert a == q0 * d + r0;
    var k := q - q0;
    assert k * d == r0 - r by { assert q * d - q0 * d == (q - q0) * d; }
    if k >= 1 { MulMono(k, d); }
    else if k <= -1 { MulMono(-k, d); }
  }

  lemma DivStep(a: nat, d: nat)
    requires d > 0
    ensures (a + d) / d == a / d + 1
    ensures a < d ==> a / d == 0
  {
    var q, r := a / d, a % d;
    assert a == q * d + r;
    assert a + d == (q + 1) * d + r;
    DivUnique(a + d, d, q + 1, r);
    if a < d { DivUnique(a, d, 0, a); }
  }

  /** From cursor `start` the loop emits ceil((L - start) / step) chunks. */
  lemma {:induction false} ChunksFromCount(text: string, chunkSize: nat, overlap: nat, start: nat)
    requires overlap < chunkSize
    ensures |ChunksFrom(text, chunkSize, overlap, start)|
            == if start >= |text| then 0
               else (|text| - start - 1 + Step(chunkSize, overlap)) / Step(chunkSize, overlap)
    decreases |text| - start
  {
    var step := Step(chunkSize, overlap);
    if start < |text| {
      var next := start + step;
      ChunksFromCount(text, chunkSize, overlap, next);
      DivStep(|text| - start - 1, step);
      if next < |text| {
        assert |text| - next - 1 + step == |text| - start - 1;
      }
    }
  }

  /** Chunk `j` emitted from cursor `start` is the window at `start + j * step`. */
  lemma {:induction false} ChunksFromAt(text: string, chunkSize: nat, overlap: nat, start: nat, j: nat)
    requires overlap < chunkSize
    requires j < |ChunksFrom(text, chunkSize, overlap, start)|
    ensures var pos := start + j * Step(chunkSize, overlap);
            pos < |text| &&
            ChunksFrom(text, chunkSize, overlap, start)[j] == text[pos..Min(pos + chunkSize, |text|)]
    decreases j
  {
    var step := Step(chunkSize, overlap);
    var cs := ChunksFrom(text, chunkSize, overlap, start);
    assert start < |text|;
    var next := start + chunkSize - overlap;
    var rest := ChunksFrom(text, chunkSize, overlap, next);
    assert cs == [text[start..Min(start + chunkSize, |text|)]] + rest;
    if j == 0 {
      assert start + j * step == start;
    } else {
      assert cs[j] == rest[j - 1];
      ChunksFromAt(text, chunkSize, overlap, next, j - 1);
      MulStep(j, step);
    }
  }

  lemma MulStep(j: nat, step: nat)
    requires j > 0
    ensures step + (j - 1) * step == j * step
  {
  }

  /** The number of chunks is ceil(L / (chunk_size - overlap)) and chunk `i`
      is the window starting at `i * (chunk_size - overlap)`. */
  lemma ChunksClosedForm(text: string, chunkSize: nat, overlap: nat)
    requires overlap < chunkSize
    ensures var cs := Chunks(text, chunkSize, overlap);
            |cs| == NumChunks(|text|, chunkSize, overlap) &&
            forall i :: 0 <= i < |cs| ==>
              i * Step(chunkSize, overlap) < |text| && cs[i] == Window(text, chunkSize, overlap, i)
  {
    ChunksFromCount(text, chunkSize, overlap, 0);
    var step := Step(chunkSize, overlap);
    if |text| == 0 {
      DivStep(step - 1, step);
    }
    var cs := Chunks(text, chunkSize, overlap);
    forall i | 0 <= i < |cs|
      ensures i * step < |text| && cs[i] == Window(text, chunkSize, overlap, i)
    {
      ChunksFromAt(text, chunkSize, overlap, 0, i);
      assert 0 + i * step == i * step;
    }
  }

  // ---------------------------------------------------------------------
  // Properties of the chunks

  /** Empty text yields no chunks; non-empty text yields a first chunk that
      starts at position 0. */
  lemma FirstChunk(text: string, chunkSize: nat, overlap: nat)
    requires overlap < chunkSize
    ensures var cs := Chunks(text, chunkSize, overlap);
            (|text| == 0 <==> cs == []) &&
            (|text| > 0 ==> cs[0] == text[..Min(chunkSize, |text|)])
  {
  }

  /** Every emitted chunk is non-empty and no longer than `chunk_size`. */
  lemma ChunkLengths(text: string, chunkSize: nat, overlap: nat)
    requires overlap < chunkSize
    ensures var cs := Chunks(text, chunkSize, overlap);
            forall i :: 0 <= i < |cs| ==> 0 < |cs[i]| <= chunkSize
  {
    ChunksClosedForm(text, chunkSize, overlap);
  }

  /** When chunk `i` has the full length `chunk_size` and another chunk
      follows, its last `overlap` characters are the first `overlap`
      characters of chunk `i + 1`. */
  lemma ConsecutiveOverlap(text: string, chunkSize: nat, overlap: nat, i: nat)
    requires overlap < chunkSize
    requires i + 1 < |Chunks(text, chunkSize, overlap)|
    requires |Chunks(text, chunkSize, overlap)[i]| == chunkSize
    ensures var cs := Chunks(text, chunkSize, overlap);
            overlap <= |cs[i + 1]| &&
            cs[i][chunkSize - overlap..] == cs[i + 1][..overlap]
  {
    ChunksClosedForm(text, chunkSize, overlap);
    var cs := Chunks(text, chunkSize, overlap);
    var step := Step(chunkSize, overlap);
    var a := i * step;
    assert (i + 1) * step == a + step;
    assert cs[i] == text[a..Min(a + chunkSize, |text|)];
    assert a + chunkSize <= |text|;
    assert cs[i + 1] == text[a + step..Min(a + step + chunkSize, |text|)];
    assert cs[i][chunkSize - overlap..] == text[a + step..a + chunkSize];
  }

  /** The last chunk emitted from cursor `start` runs to the end of the text. */
  lemma {:induction false} LastChunkFrom(text: string, chunkSize: nat, overlap: nat, start: nat)
    requires overlap < chunkSize
    requires start < |text|
    ensures var cs := ChunksFrom(text, chunkSize, overlap, start);
            |cs| > 0 &&
            start + (|cs| - 1) * Step(chunkSize, overlap) < |text| &&
            cs[|cs| - 1] == text[start + (|cs| - 1) * Step(chunkSize, overlap)..]
    decreases |text| - start
  {
    var step := Step(chunkSize, overlap);
    var cs := ChunksFrom(text, chunkSize, overlap, start);
    var next := start + step;
    var rest := ChunksFrom(text, chunkSize, overlap, next);
    assert cs == [text[start..Min(start + chunkSize, |text|)]] + rest;
    if next < |text| {
      LastChunkFrom(text, chunkSize, overlap, next);
      assert cs[|cs| - 1] == rest[|rest| - 1];
      assert next + (|rest| - 1) * step == start + (|cs| - 1) * step;
    }
  }

  /** The loop stops only once a window has reached the end of the text:
      the last chunk is the suffix of the text that starts at its cursor. */
  lemma LastChunkEndsAtText(text: string, chunkSize: nat, overlap: nat)
    requires overlap < chunkSize
    requires |text| > 0
    ensures var cs := Chunks(text, chunkSize, overlap);
            var k := |cs| - 1;
            k >= 0 && k * Step(chunkSize, overlap) < |text| &&
            cs[k] == text[k * Step(chunkSize, overlap)..]
  {
    LastChunkFrom(text, chunkSize, overlap, 0);
    var k := |Chunks(text, chunkSize, overlap)| - 1;
    assert 0 + k * Step(chunkSize, overlap) == k * Step(chunkSize, overlap);
  }

  // ---------------------------------------------------------------------
  // Rebuilding the text

  /** Every chunk after the first with its leading `overlap` characters
      dropped (all of it when it is shorter, as Python slicing does). */
  function Fresh(chunks: seq<string>, overlap: nat): string
  {
    if chunks == [] then []
    else chunks[0][Min(overlap, |chunks[0]|)..] + Fresh(chunks[1..], overlap)
  }

  /** Chunk 0 followed by the new characters of every later chunk. */
  function Rebuild(chunks: seq<string>, overlap: nat): string
  {
    if chunks == [] then [] else chunks[0] + Fresh(chunks[1..], overlap)
  }

  /** After a window that ended at `start + overlap`, the remaining chunks
      contribute exactly the rest of the text. */
  lemma {:induction false} FreshFrom(text: string, chunkSize: nat, overlap: nat, start: nat)
    requires overlap < chunkSize
    ensures Fresh(ChunksFrom(text, chunkSize, overlap, start), overlap)
            == text[Min(start + overlap, |text|)..]
    decreases |text| - start
  {
    var cs := ChunksFrom(text, chunkSize, overlap, start);
    if start < |text| {
      var e := Min(start + chunkSize, |text|);
      var c := text[start..e];
      var rest := ChunksFrom(text, chunkSize, overlap, start + chunkSize - overlap);
      assert cs == [c] + rest;
      assert cs[1..] == rest;
      FreshFrom(text, chunkSize, overlap, start + chunkSize - overlap);
      assert start + chunkSize - overlap + overlap == start + chunkSize;
      var d := Min(overlap, |c|);
      assert c[d..] == text[Min(start + overlap, |text|)..e];
      assert text[Min(start + overlap, |text|)..] == text[Min(start + overlap, |text|)..e] + text[e..];
    }
  }

  /** No character is lost: the chunks rebuild the text exactly. */
  lemma RebuildText(text: string, chunkSize: nat, overlap: nat)
    requires overlap < chunkSize
    ensures Rebuild(Chunks(text, chunkSize, overlap), overlap) == text
  {
    var cs := Chunks(text, chunkSize, overlap);
    if |text| > 0 {
      var e := Min(chunkSize, |text|);
      var rest := ChunksFrom(text, chunkSize, overlap, chunkSize - overlap);
      assert cs == [text[0..e]] + rest;
      assert cs[1..] == rest;
      FreshFrom(text, chunkSize, overlap, chunkSize - overlap);
      assert chunkSize - overlap + overlap == chunkSize;
      assert text == text[0..e] + text[e..];
    }
  }

  /** Trailing near-duplicates are emitted: for L = 10, chunk size 5 and
      overlap 2 the cursor visits 0, 3, 6 and 9, so the last chunk lies
      entirely inside the third one. */
  lemma TrailingChunkInsidePrevious()
    ensures Chunks("abcdefghij", 5, 2) == ["abcde", "defgh", "ghij", "j"]
  {
    var t := "abcdefghij";
    assert ChunksFrom(t, 5, 2, 12) == [];
    assert t[9..10] == "j";
    assert ChunksFrom(t, 5, 2, 9) == [t[9..10]] + ChunksFrom(t, 5, 2, 12);
    assert t[6..10] == "ghij";
    assert ChunksFrom(t, 5, 2, 6) == [t[6..10]] + ChunksFrom(t, 5, 2, 9);
    assert t[3..8] == "defgh";
    assert ChunksFrom(t, 5, 2, 3) == [t[3..8]] + ChunksFrom(t, 5, 2, 6);
    assert t[0..5] == "abcde";
    assert ChunksFrom(t, 5, 2, 0) == [t[0..5]] + ChunksFrom(t, 5, 2, 3);
  }

  // ---------------------------------------------------------------------
  // The unguarded configuration overlap >= chunk_size

  /** The loop's cursor after `n` iterations, for arbitrary integer
      arguments (the source does not validate them). */
  function Cursor(chunkSize: int, overlap: int, n: nat): int
  {
    if n == 0 then 0 else Cursor(chunkSize, overlap, n - 1) + chunkSize - overlap
  }

  /** With `overlap >= chunk_size` the cursor never moves forward, so for a
      non-empty text the guard `start < len(text)` holds after every number
      of iterations: the loop does not terminate. */
  lemma {:induction false} CursorStalls(text: string, chunkSize: int, overlap: int, n: nat)
    requires overlap >= chunkSize
    requires |text| > 0
    ensures Cursor(chunkSize, overlap, n) <= 0
    ensures Cursor(chunkSize, overlap, n) < |text|
  {
    if n > 0 {
      CursorStalls(text, chunkSize, overlap, n - 1);
    }
  }

  /** For a valid configuration the cursor after `n` iterations is `n * step`,
      the start of `Window(.., n)`. */
  lemma {:induction false} CursorAdvances(chunkSize: nat, overlap: nat, n: nat)
    requires overlap < chunkSize
    ensures Cursor(chunkSize, overlap, n) == n * Step(chunkSize, overlap)
  {
    if n > 0 {
      CursorAdvances(chunkSize, overlap, n - 1);
      assert (n - 1) * Step(chunkSize, overlap) + Step(chunkSize, overlap) == n * Step(chunkSize, overlap);
    }
  }
}
