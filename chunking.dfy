/**
 * The sliding-window text chunker of the ingestion service (chunk_text).
 *
 * A window of `chunkSize` characters is cut at `start`, which begins at 0
 * and advances by the stride `chunkSize - overlap` while it is still inside
 * the text. Python slicing clips a window at the end of the text, so the
 * last windows may be shorter than `chunkSize`. Text is a sequence of code
 * points, as Python's `str` is.
 */
module Chunking {

  function Min(a: int, b: int): int { if a <= b then a else b }

  /** The clipped slice text[start : start + chunkSize] of Python. */
  function Window(text: string, start: nat, chunkSize: nat): string
    requires start <= |text|
  {
    text[start..Min(start + chunkSize, |text|)]
  }

  /** Where chunk i starts: i strides into the text. */
  function ChunkStart(i: nat, chunkSize: nat, overlap: nat): nat
    requires overlap < chunkSize
  {
    i * (chunkSize - overlap)
  }

  /**
   * How many windows of stride d start inside a text of m characters:
   * ceil(m / d), and 0 for an empty text (see WindowCountIsCeil).
   */
  function WindowCount(m: int, d: nat): nat
    requires d > 0
    decreases if m > 0 then m else 0
  {
    if m <= 0 then 0 else 1 + WindowCount(m - d, d)
  }

  /** The chunks the loop appends from the moment `start` has the given value. */
  function ChunksFrom(text: string, start: nat, chunkSize: nat, overlap: nat): seq<string>
    requires overlap < chunkSize
    decreases if start < |text| then |text| - start else 0
  {
    if start < |text| then
      [Window(text, start, chunkSize)] + ChunksFrom(text, start + chunkSize - overlap, chunkSize, overlap)
    else
      []
  }

  /** What chunk_text returns: nothing for an empty text, otherwise the windows from 0. */
  function Chunks(text: string, chunkSize: nat, overlap: nat): seq<string>
    requires overlap < chunkSize
  {
    if |text| == 0 then [] else ChunksFrom(text, 0, chunkSize, overlap)
  }

  /**
   * The chunker as the service runs it: a loop that appends windows and
   * advances `start` by the stride. The loop terminates because the stride
   * is positive, which is what `overlap < chunkSize` guarantees; the
   * configuration does not check it, so here it is the caller's obligation.
   */
  method ChunkText(text: string, chunkSize: nat, overlap: nat) returns (chunks: seq<string>)
    requires overlap < chunkSize
    ensures chunks == Chunks(text, chunkSize, overlap)
    ensures |chunks| == WindowCount(|text|, chunkSize - overlap)
    ensures forall i :: 0 <= i < |chunks| ==>
              ChunkStart(i, chunkSize, overlap) < |text| &&
              chunks[i] == Window(text, ChunkStart(i, chunkSize, overlap), chunkSize)
  {
    if |text| == 0 {
      return [];
    }
    chunks := [];
    var start := 0;
    while start < |text|
      invariant 0 <= start
      invariant chunks + ChunksFrom(text, start, chunkSize, overlap) == ChunksFrom(text, 0, chunkSize, overlap)
      decreases |text| - start
    {
      var end := start + chunkSize;
      var chunk := text[start..Min(end, |text|)];
      assert ChunksFrom(text, start, chunkSize, overlap) == [chunk] + ChunksFrom(text, end - overlap, chunkSize, overlap);
      chunks := chunks + [chunk];
      start := end - overlap;
    }
    assert ChunksFrom(text, start, chunkSize, overlap) == [];
    assert chunks == Chunks(text, chunkSize, overlap);
    ChunkCount(text, chunkSize, overlap);
    EveryChunkAt(text, chunkSize, overlap);
  }

  // ---------------------------------------------------------------------------
  // Which slice each chunk is
  // ---------------------------------------------------------------------------

  lemma {:induction false} ChunksFromAt(text: string, start: nat, chunkSize: nat, overlap: nat, i: nat)
    requires overlap < chunkSize
    requires i < |ChunksFrom(text, start, chunkSize, overlap)|
    ensures start + ChunkStart(i, chunkSize, overlap) < |text|
    ensures ChunksFrom(text, start, chunkSize, overlap)[i]
         == Window(text, start + ChunkStart(i, chunkSize, overlap), chunkSize)
    decreases i
  {
    var stride := chunkSize - overlap;
    if i > 0 {
      ChunksFromAt(text, start + stride, chunkSize, overlap, i - 1);
      assert stride + (i - 1) * stride == i * stride;
    }
  }

  /** Chunk i is text[i*stride : i*stride + chunkSize], and its start lies inside the text. */
  lemma ChunkAt(text: string, chunkSize: nat, overlap: nat, i: nat)
    requires overlap < chunkSize
    requires i < |Chunks(text, chunkSize, overlap)|
    ensures ChunkStart(i, chunkSize, overlap) < |text|
    ensures Chunks(text, chunkSize, overlap)[i] == Window(text, ChunkStart(i, chunkSize, overlap), chunkSize)
  {
    ChunksFromAt(text, 0, chunkSize, overlap, i);
  }

  lemma EveryChunkAt(text: string, chunkSize: nat, overlap: nat)
    requires overlap < chunkSize
    ensures forall i :: 0 <= i < |Chunks(text, chunkSize, overlap)| ==>
              ChunkStart(i, chunkSize, overlap) < |text| &&
              Chunks(text, chunkSize, overlap)[i] == Window(text, ChunkStart(i, chunkSize, overlap), chunkSize)
  {
    forall i | 0 <= i < |Chunks(text, chunkSize, overlap)|
      ensures ChunkStart(i, chunkSize, overlap) < |text|
      ensures Chunks(text, chunkSize, overlap)[i] == Window(text, ChunkStart(i, chunkSize, overlap), chunkSize)
    {
      ChunkAt(text, chunkSize, overlap, i);
    }
  }

  /** No chunk is empty and none is longer than chunkSize. */
  lemma ChunkBounds(text: string, chunkSize: nat, overlap: nat, i: nat)
    requires overlap < chunkSize
    requires i < |Chunks(text, chunkSize, overlap)|
    ensures 0 < |Chunks(text, chunkSize, overlap)[i]| <= chunkSize
  {
    ChunkAt(text, chunkSize, overlap, i);
  }

  // ---------------------------------------------------------------------------
  // How many chunks there are
  // ---------------------------------------------------------------------------

  /** WindowCount(m, d) is the least k with k * d >= m, that is ceil(m / d). */
  lemma {:induction false} WindowCountIsCeil(m: int, d: nat)
    requires d > 0
    ensures m <= WindowCount(m, d) * d
    ensures m > 0 ==> (WindowCount(m, d) - 1) * d < m
    decreases if m > 0 then m else 0
  {
    if m > 0 {
      WindowCountIsCeil(m - d, d);
      var k := WindowCount(m - d, d);
      assert (k + 1) * d == k * d + d;
      if m - d > 0 {
        assert (k - 1) * d == k * d - d;
      }
    }
  }

  lemma {:induction false} ChunksFromCount(text: string, start: nat, chunkSize: nat, overlap: nat)
    requires overlap < chunkSize
    ensures |ChunksFrom(text, start, chunkSize, overlap)| == WindowCount(|text| - start, chunkSize - overlap)
    decreases if start < |text| then |text| - start else 0
  {
    if start < |text| {
      ChunksFromCount(text, start + chunkSize - overlap, chunkSize, overlap);
    }
  }

  /**
   * The number of chunks is ceil(|text| / stride): the least k whose k strides
   * cover the text. An empty text gives none.
   */
  lemma ChunkCount(text: string, chunkSize: nat, overlap: nat)
    requires overlap < chunkSize
    ensures |Chunks(text, chunkSize, overlap)| == WindowCount(|text|, chunkSize - overlap)
    ensures |text| <= |Chunks(text, chunkSize, overlap)| * (chunkSize - overlap)
    ensures |text| > 0 ==> (|Chunks(text, chunkSize, overlap)| - 1) * (chunkSize - overlap) < |text|
    ensures |Chunks(text, chunkSize, overlap)| == 0 <==> |text| == 0
  {
    ChunksFromCount(text, 0, chunkSize, overlap);
    WindowCountIsCeil(|text|, chunkSize - overlap);
  }

  /**
   * One chunk, the whole text, exactly when the text fits in one stride.
   * A text shorter than chunkSize but longer than the stride gives two.
   */
  lemma SingleChunk(text: string, chunkSize: nat, overlap: nat)
    requires overlap < chunkSize
    ensures Chunks(text, chunkSize, overlap) == [text] <==> 0 < |text| <= chunkSize - overlap
  {
    var stride := chunkSize - overlap;
    if |text| > 0 {
      var rest := ChunksFrom(text, stride, chunkSize, overlap);
      assert Chunks(text, chunkSize, overlap) == [Window(text, 0, chunkSize)] + rest;
      if |text| <= stride {
        assert rest == [];
        assert Window(text, 0, chunkSize) == text;
      } else {
        assert |rest| > 0;
      }
    }
  }

  /**
   * A text of exactly chunkSize characters gives two chunks, the whole text
   * and then its last `overlap` characters, as long as the second window
   * already reaches the end (overlap at most half the chunk size).
   */
  lemma ExactSizeTwoChunks(text: string, chunkSize: nat, overlap: nat)
    requires overlap < chunkSize
    requires |text| == chunkSize && 0 < overlap && 2 * overlap <= chunkSize
    ensures Chunks(text, chunkSize, overlap) == [text, text[chunkSize - overlap..]]
  {
    var stride := chunkSize - overlap;
    assert ChunksFrom(text, stride + stride, chunkSize, overlap) == [];
    assert Window(text, stride, chunkSize) == text[stride..];
    assert ChunksFrom(text, stride, chunkSize, overlap) == [text[stride..]];
    assert Window(text, 0, chunkSize) == text;
  }

  /**
   * For a text of exactly chunkSize characters: two chunks exactly when
   * 0 < overlap <= chunkSize / 2; one chunk without overlap; and more than
   * two when the overlap is above half the chunk size.
   */
  lemma ExactSizeChunkCount(text: string, chunkSize: nat, overlap: nat)
    requires overlap < chunkSize && |text| == chunkSize
    ensures |Chunks(text, chunkSize, overlap)| == 2 <==> 0 < overlap && 2 * overlap <= chunkSize
    ensures overlap == 0 ==> |Chunks(text, chunkSize, overlap)| == 1
    ensures 2 * overlap > chunkSize ==> |Chunks(text, chunkSize, overlap)| > 2
  {
    ChunkCount(text, chunkSize, overlap);
    var k := |Chunks(text, chunkSize, overlap)|;
    var s := chunkSize - overlap;
    assert (k - 1) * s == k * s - s;
    if overlap == 0 {
      assert k * s < 2 * s;
    } else if 2 * overlap <= chunkSize {
      ExactSizeTwoChunks(text, chunkSize, overlap);
    } else {
      assert k * s > 2 * s;
    }
  }

  /** The smallest case of a large overlap: 10 characters at 10/6 give three chunks. */
  lemma ExactSizeLargeOverlap(text: string)
    requires |text| == 10
    ensures Chunks(text, 10, 6) == [text, text[4..], text[8..]]
  {
    assert ChunksFrom(text, 12, 10, 6) == [];
    assert Window(text, 8, 10) == text[8..];
    assert ChunksFrom(text, 8, 10, 6) == [text[8..]];
    assert Window(text, 4, 10) == text[4..];
    assert ChunksFrom(text, 4, 10, 6) == [text[4..], text[8..]];
    assert Window(text, 0, 10) == text;
  }

  // ---------------------------------------------------------------------------
  // How neighbouring chunks overlap
  // ---------------------------------------------------------------------------

  /**
   * What chunk i holds past its first stride starts chunk i + 1; when chunk i
   * has full length, its last `overlap` characters are the first `overlap`
   * characters of chunk i + 1. Every chunk but the last is at least a stride long.
   */
  lemma NeighbourOverlap(text: string, chunkSize: nat, overlap: nat, i: nat)
    requires overlap < chunkSize
    requires i + 1 < |Chunks(text, chunkSize, overlap)|
    ensures var chunks := Chunks(text, chunkSize, overlap);
            |chunks[i]| >= chunkSize - overlap &&
            chunks[i][chunkSize - overlap..] <= chunks[i + 1] &&
            (|chunks[i]| == chunkSize ==>
               chunks[i][chunkSize - overlap..] == chunks[i + 1][..overlap] &&
               chunks[i][|chunks[i]| - overlap..] == chunks[i + 1][..overlap])
  {
    var stride := chunkSize - overlap;
    ChunkAt(text, chunkSize, overlap, i);
    ChunkAt(text, chunkSize, overlap, i + 1);
    assert ChunkStart(i + 1, chunkSize, overlap) == ChunkStart(i, chunkSize, overlap) + stride;
  }

  // ---------------------------------------------------------------------------
  // Rebuilding the text from the chunks
  // ---------------------------------------------------------------------------

  /** The first stride of every chunk but the last, then the whole last chunk. */
  function Reassemble(chunks: seq<string>, stride: nat): string
  {
    if |chunks| == 0 then ""
    else if |chunks| == 1 then chunks[0]
    else chunks[0][..Min(stride, |chunks[0]|)] + Reassemble(chunks[1..], stride)
  }

  lemma {:induction false} ReassembleFrom(text: string, start: nat, chunkSize: nat, overlap: nat)
    requires overlap < chunkSize
    requires start < |text|
    ensures Reassemble(ChunksFrom(text, start, chunkSize, overlap), chunkSize - overlap) == text[start..]
    decreases |text| - start
  {
    var stride := chunkSize - overlap;
    var chunks := ChunksFrom(text, start, chunkSize, overlap);
    var next := start + stride;
    assert chunks[0] == Window(text, start, chunkSize);
    assert chunks[1..] == ChunksFrom(text, next, chunkSize, overlap);
    if next < |text| {
      ReassembleFrom(text, next, chunkSize, overlap);
      assert |chunks[0]| >= stride;
      assert chunks[0][..Min(stride, |chunks[0]|)] == text[start..next];
      assert text[start..] == text[start..next] + text[next..];
    }
  }

  /** Dropping the overlaps and concatenating gives back the text. */
  lemma Reconstruction(text: string, chunkSize: nat, overlap: nat)
    requires overlap < chunkSize
    ensures Reassemble(Chunks(text, chunkSize, overlap), chunkSize - overlap) == text
  {
    if |text| > 0 {
      ReassembleFrom(text, 0, chunkSize, overlap);
    }
  }

  /** The last chunk runs to the end of the text. */
  lemma LastChunkIsSuffix(text: string, chunkSize: nat, overlap: nat)
    requires overlap < chunkSize
    requires |text| > 0
    ensures var chunks := Chunks(text, chunkSize, overlap);
            |chunks| > 0 &&
            ChunkStart(|chunks| - 1, chunkSize, overlap) < |text| &&
            chunks[|chunks| - 1] == text[ChunkStart(|chunks| - 1, chunkSize, overlap)..]
  {
    var stride := chunkSize - overlap;
    var k := |Chunks(text, chunkSize, overlap)|;
    ChunkCount(text, chunkSize, overlap);
    WindowCountIsCeil(|text|, stride);
    ChunkAt(text, chunkSize, overlap, k - 1);
    assert (k - 1) * stride + stride == k * stride;
  }

  // ---------------------------------------------------------------------------
  // The cases the service's tests pin down (chunk size 1000, overlap 100)
  // ---------------------------------------------------------------------------

  lemma DocumentedExamples(text: string)
    ensures |text| == 0 ==> Chunks(text, 1000, 100) == []
    ensures |text| == 2500 ==>
              |Chunks(text, 1000, 100)| == 3 && |Chunks(text, 1000, 100)[0]| == 1000
    ensures |text| == 1500 ==>
              |Chunks(text, 1000, 100)| == 2 &&
              |Chunks(text, 1000, 100)[0]| == 1000 && |Chunks(text, 1000, 100)[1]| == 600 &&
              Chunks(text, 1000, 100)[0][900..] == Chunks(text, 1000, 100)[1][..100]
    ensures |text| == 1000 ==>
              |Chunks(text, 1000, 100)| == 2 &&
              |Chunks(text, 1000, 100)[0]| == 1000 && |Chunks(text, 1000, 100)[1]| == 100
    ensures |text| == 950 ==> Chunks(text, 1000, 100) == [text, text[900..]]
    ensures 0 < |text| <= 900 ==> Chunks(text, 1000, 100) == [text]
  {
    ChunkCount(text, 1000, 100);
    SingleChunk(text, 1000, 100);
    if |text| == 2500 || |text| == 1500 {
      ChunkAt(text, 1000, 100, 0);
      ChunkAt(text, 1000, 100, 1);
    }
    if |text| == 1500 {
      NeighbourOverlap(text, 1000, 100, 0);
    }
    if |text| == 1000 {
      ExactSizeTwoChunks(text, 1000, 100);
    }
    if |text| == 950 {
      assert ChunksFrom(text, 1800, 1000, 100) == [];
      assert Window(text, 900, 1000) == text[900..];
      assert ChunksFrom(text, 900, 1000, 100) == [text[900..]];
      assert Window(text, 0, 1000) == text;
    }
  }
}
