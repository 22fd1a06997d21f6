/** The text chunker of app.py (`chunk_text`): a cursor walks over the text
    and emits windows of at most `chunkSize` characters; consecutive windows
    share up to `overlap` characters, and a guard moves the cursor to the end
    of the window whenever stepping back by `overlap` would not move it forward. */
module Chunker {
  import opened Strings

  /** Half-open character offsets [start, end) of one chunk within the text. */
  datatype Span = Span(start: nat, end: nat)

  function Min(a: int, b: int): int { if a <= b then a else b }

  /** Where the window opened at `start` closes, `min(start + chunk_size, len(text))`. */
  function WindowEnd(n: nat, chunkSize: int, start: nat): (end: nat)
    requires chunkSize > 0 && start < n
    ensures start < end <= n
    ensures end - start <= chunkSize
    ensures end == n || end - start == chunkSize
  {
    Min(start + chunkSize, n)
  }

  /** The cursor after the window [start, end): step back by `overlap` when
      that still lies beyond `start`, otherwise jump to `end`. */
  function NextStart(start: nat, end: nat, overlap: int): (next: nat)
    requires start < end
    ensures start < next
    ensures next == end - overlap || next == end
    ensures overlap >= 0 ==> next <= end
  {
    if end - overlap > start then end - overlap else end
  }

  /** The windows the cursor loop visits over a text of length `n` once its
      cursor stands at `start`. */
  function SpansFrom(n: nat, chunkSize: int, overlap: int, start: nat): (spans: seq<Span>)
    requires chunkSize > 0
    ensures forall i :: 0 <= i < |spans| ==> start <= spans[i].start < spans[i].end <= n
    decreases n - start
  {
    if start >= n then []
    else
      var end := WindowEnd(n, chunkSize, start);
      [Span(start, end)] + SpansFrom(n, chunkSize, overlap, NextStart(start, end, overlap))
  }

  /** The windows of a whole run: the cursor starts at 0. */
  function Spans(n: nat, chunkSize: int, overlap: int): (spans: seq<Span>)
    requires chunkSize > 0
    ensures forall i :: 0 <= i < |spans| ==> spans[i].start < spans[i].end <= n
  {
    SpansFrom(n, chunkSize, overlap, 0)
  }

  /** The substrings of `text` that the given spans delimit, in order. */
  function Slices(text: string, spans: seq<Span>): (chunks: seq<string>)
    requires forall i :: 0 <= i < |spans| ==> spans[i].start <= spans[i].end <= |text|
    ensures |chunks| == |spans|
    ensures forall i :: 0 <= i < |spans| ==> chunks[i] == text[spans[i].start..spans[i].end]
  {
    seq(|spans|, i requires 0 <= i < |spans| => text[spans[i].start..spans[i].end])
  }

  lemma SlicesAppend(text: string, spans: seq<Span>, last: Span)
    requires forall i :: 0 <= i < |spans| ==> spans[i].start <= spans[i].end <= |text|
    requires last.start <= last.end <= |text|
    ensures Slices(text, spans + [last]) == Slices(text, spans) + [text[last.start..last.end]]
  {
  }

  /** What `chunk_text(text, chunkSize, overlap)` returns. */
  function Chunks(text: string, chunkSize: int, overlap: int): seq<string>
    requires chunkSize > 0
  {
    Slices(text, Spans(|text|, chunkSize, overlap))
  }

  function Last(spans: seq<Span>): Span
    requires |spans| > 0
  {
    spans[|spans| - 1]
  }

  /** An independent description of a run of the cursor loop started at
      `start`: it is empty exactly when the cursor is already at or past the
      end, its first window opens at `start`, every window is as wide as the
      text allows, each window opens where the guard put the cursor after the
      previous one, and the cursor after the last window is at or past the end. */
  ghost predicate IsRunFrom(n: nat, chunkSize: int, overlap: int, start: nat, spans: seq<Span>)
    requires chunkSize > 0
  {
    (|spans| == 0 <==> start >= n) &&
    (|spans| > 0 ==> spans[0].start == start) &&
    (forall i :: 0 <= i < |spans| ==>
       spans[i].start < n && spans[i].end == WindowEnd(n, chunkSize, spans[i].start)) &&
    (forall i :: 0 <= i < |spans| - 1 ==>
       spans[i + 1].start == NextStart(spans[i].start, spans[i].end, overlap)) &&
    (|spans| > 0 ==> NextStart(Last(spans).start, Last(spans).end, overlap) >= n)
  }

  lemma {:induction false} SpansFromIsRun(n: nat, chunkSize: int, overlap: int, start: nat)
    requires chunkSize > 0
    ensures IsRunFrom(n, chunkSize, overlap, start, SpansFrom(n, chunkSize, overlap, start))
    decreases n - start
  {
    if start < n {
      var end := WindowEnd(n, chunkSize, start);
      var next := NextStart(start, end, overlap);
      var rest := SpansFrom(n, chunkSize, overlap, next);
      SpansFromIsRun(n, chunkSize, overlap, next);
      var spans := [Span(start, end)] + rest;
      assert SpansFrom(n, chunkSize, overlap, start) == spans;
      forall i | 0 <= i < |spans| - 1
        ensures spans[i + 1].start == NextStart(spans[i].start, spans[i].end, overlap)
      {
        if i > 0 {
          assert spans[i] == rest[i - 1] && spans[i + 1] == rest[i];
        }
      }
      if |rest| > 0 {
        assert Last(spans) == Last(rest);
      }
    }
  }

  lemma {:induction false} RunFromUnique(n: nat, chunkSize: int, overlap: int, start: nat, spans: seq<Span>)
    requires chunkSize > 0
    requires IsRunFrom(n, chunkSize, overlap, start, spans)
    ensures spans == SpansFrom(n, chunkSize, overlap, start)
    decreases n - start
  {
    if start < n {
      var end := WindowEnd(n, chunkSize, start);
      var next := NextStart(start, end, overlap);
      var rest := spans[1..];
      assert spans[0] == Span(start, end);
      if |rest| > 0 {
        assert rest[0].start == next;
        forall i | 0 <= i < |rest| - 1
          ensures rest[i + 1].start == NextStart(rest[i].start, rest[i].end, overlap)
        {
          assert rest[i] == spans[i + 1] && rest[i + 1] == spans[i + 2];
        }
        assert Last(rest) == Last(spans);
      }
      assert IsRunFrom(n, chunkSize, overlap, next, rest);
      RunFromUnique(n, chunkSize, overlap, next, rest);
      assert spans == [spans[0]] + rest;
    }
  }

  /** The windows that follow window `i` of a run are the run that starts
      from the cursor the guard computes after window `i`. */
  lemma {:induction false} RunSuffix(n: nat, chunkSize: int, overlap: int, start: nat, spans: seq<Span>, i: nat)
    requires chunkSize > 0
    requires IsRunFrom(n, chunkSize, overlap, start, spans)
    requires i < |spans|
    ensures spans[i + 1..] == SpansFrom(n, chunkSize, overlap, NextStart(spans[i].start, spans[i].end, overlap))
  {
    var next := NextStart(spans[i].start, spans[i].end, overlap);
    var rest := spans[i + 1..];
    if |rest| > 0 {
      assert rest[0] == spans[i + 1];
      forall j | 0 <= j < |rest|
        ensures rest[j].start < n && rest[j].end == WindowEnd(n, chunkSize, rest[j].start)
      {
        assert rest[j] == spans[i + 1 + j];
      }
      forall j | 0 <= j < |rest| - 1
        ensures rest[j + 1].start == NextStart(rest[j].start, rest[j].end, overlap)
      {
        assert rest[j] == spans[i + 1 + j] && rest[j + 1] == spans[i + 2 + j];
      }
      assert Last(rest) == Last(spans);
    } else {
      assert spans[i] == Last(spans);
    }
    assert IsRunFrom(n, chunkSize, overlap, next, rest);
    RunFromUnique(n, chunkSize, overlap, next, rest);
  }

  /** `Spans` is exactly the run of the cursor loop: it satisfies the
      description, and it is the only sequence that does. */
  lemma SpansCharacterised(n: nat, chunkSize: int, overlap: int, spans: seq<Span>)
    requires chunkSize > 0
    ensures IsRunFrom(n, chunkSize, overlap, 0, spans) <==> spans == Spans(n, chunkSize, overlap)
  {
    SpansFromIsRun(n, chunkSize, overlap, 0);
    if IsRunFrom(n, chunkSize, overlap, 0, spans) {
      RunFromUnique(n, chunkSize, overlap, 0, spans);
    }
  }

  /** `chunk_text`: the cursor loop itself. The ghost `spans` are the offsets
      of the chunks it appends. */
  method ChunkText(text: string, chunkSize: int, overlap: int) returns (chunks: seq<string>, ghost spans: seq<Span>)
    requires chunkSize > 0
    ensures spans == Spans(|text|, chunkSize, overlap)
    ensures chunks == Chunks(text, chunkSize, overlap)
    ensures forall i :: 0 <= i < |chunks| ==> 0 < |chunks[i]| <= chunkSize
    ensures chunks == [] <==> text == []
  {
    ghost var n := |text|;
    chunks, spans := [], [];
    var start: nat := 0;
    while start < |text|
      invariant forall i :: 0 <= i < |spans| ==> spans[i].start <= spans[i].end <= n
      invariant spans + SpansFrom(n, chunkSize, overlap, start) == Spans(n, chunkSize, overlap)
      invariant chunks == Slices(text, spans)
      decreases |text| - start
    {
      var end := Min(start + chunkSize, |text|);
      var next := if end - overlap > start then end - overlap else end;
      assert next == NextStart(start, end, overlap);
      assert (spans + [Span(start, end)]) + SpansFrom(n, chunkSize, overlap, next) == Spans(n, chunkSize, overlap) by {
        ghost var rest := SpansFrom(n, chunkSize, overlap, next);
        assert SpansFrom(n, chunkSize, overlap, start) == [Span(start, end)] + rest;
        assert spans + ([Span(start, end)] + rest) == (spans + [Span(start, end)]) + rest;
      }
      SlicesAppend(text, spans, Span(start, end));
      chunks := chunks + [text[start..end]];
      spans := spans + [Span(start, end)];
      start := next;
    }
    assert SpansFrom(n, chunkSize, overlap, start) == [];
    assert spans == spans + [];
    ChunkBounds(text, chunkSize, overlap);
  }

  /** Every chunk is non-empty and at most `chunkSize` long, and there is a
      chunk exactly when the text is non-empty. */
  lemma ChunkBounds(text: string, chunkSize: int, overlap: int)
    requires chunkSize > 0
    ensures var chunks := Chunks(text, chunkSize, overlap);
      (chunks == [] <==> text == []) &&
      forall i :: 0 <= i < |chunks| ==> 0 < |chunks[i]| <= chunkSize
  {
    SpansFromIsRun(|text|, chunkSize, overlap, 0);
  }

  /** Two neighbouring windows of a run with a non-negative overlap. */
  lemma Neighbours(n: nat, chunkSize: int, overlap: int, i: nat)
    requires chunkSize > 0 && overlap >= 0
    requires i + 1 < |Spans(n, chunkSize, overlap)|
    ensures var a, b := Spans(n, chunkSize, overlap)[i], Spans(n, chunkSize, overlap)[i + 1];
      a.start < b.start <= a.end <= b.end && (a.end - b.start == overlap || b.start == a.end)
  {
    var spans := Spans(n, chunkSize, overlap);
    SpansFromIsRun(n, chunkSize, overlap, 0);
    var a, b := spans[i], spans[i + 1];
    assert b.start == NextStart(a.start, a.end, overlap);
    assert a.end == WindowEnd(n, chunkSize, a.start) && b.end == WindowEnd(n, chunkSize, b.start);
  }

  /** With a non-negative overlap the windows march forward without gaps:
      each next window opens strictly after and no later than the end of the
      previous one, two neighbours share exactly `overlap` characters or none
      (when the guard fired), so never more than `overlap`, and the last
      window ends at the end of the text. */
  lemma RunShape(n: nat, chunkSize: int, overlap: int)
    requires chunkSize > 0 && overlap >= 0
    ensures var spans := Spans(n, chunkSize, overlap);
      (spans == [] <==> n == 0) &&
      (spans != [] ==> spans[0].start == 0 && Last(spans).end == n) &&
      (forall i :: 0 <= i < |spans| ==> spans[i].end - spans[i].start <= chunkSize) &&
      (forall i :: 0 <= i < |spans| - 1 ==>
         spans[i].start < spans[i + 1].start <= spans[i].end <= spans[i + 1].end &&
         (spans[i].end - spans[i + 1].start == overlap || spans[i + 1].start == spans[i].end))
  {
    var spans := Spans(n, chunkSize, overlap);
    forall i | 0 <= i < |spans| - 1
      ensures spans[i].start < spans[i + 1].start <= spans[i].end <= spans[i + 1].end
      ensures spans[i].end - spans[i + 1].start == overlap || spans[i + 1].start == spans[i].end
    {
      Neighbours(n, chunkSize, overlap, i);
    }
    RunEnds(n, chunkSize, overlap);
    ChunkWidths(n, chunkSize, overlap);
  }

  lemma RunEnds(n: nat, chunkSize: int, overlap: int)
    requires chunkSize > 0 && overlap >= 0
    ensures var spans := Spans(n, chunkSize, overlap);
      (spans == [] <==> n == 0) &&
      (spans != [] ==> spans[0].start == 0 && Last(spans).end == n)
  {
    var spans := Spans(n, chunkSize, overlap);
    SpansFromIsRun(n, chunkSize, overlap, 0);
    if spans != [] {
      var last := Last(spans);
      assert last.end == WindowEnd(n, chunkSize, last.start);
      assert NextStart(last.start, last.end, overlap) >= n;
    }
  }

  lemma ChunkWidths(n: nat, chunkSize: int, overlap: int)
    requires chunkSize > 0
    ensures var spans := Spans(n, chunkSize, overlap);
      forall i :: 0 <= i < |spans| ==> spans[i].end - spans[i].start <= chunkSize
  {
    SpansFromIsRun(n, chunkSize, overlap, 0);
  }

  /** Every character of the text lies inside some chunk. */
  lemma Coverage(n: nat, chunkSize: int, overlap: int, k: nat)
    requires chunkSize > 0 && overlap >= 0
    requires k < n
    ensures exists i :: (0 <= i < |Spans(n, chunkSize, overlap)| &&
      Spans(n, chunkSize, overlap)[i].start <= k < Spans(n, chunkSize, overlap)[i].end)
  {
    var spans := Spans(n, chunkSize, overlap);
    RunShape(n, chunkSize, overlap);
    var i := 0;
    while spans[i].end <= k
      invariant 0 <= i < |spans|
      invariant spans[i].start <= k
      decreases |spans| - i
    {
      i := i + 1;
    }
  }

  /** The first `k` characters of `s` removed (nothing left when `k` exceeds `|s|`). */
  function DropPrefix(s: string, k: nat): string
  {
    if k <= |s| then s[k..] else []
  }

  /** How many characters window `next` shares with window `prev`. */
  function Shared(prev: Span, next: Span): nat
  {
    if prev.end >= next.start then prev.end - next.start else 0
  }

  /** Chunk 0 followed by each later chunk without the characters it shares
      with the chunk before it. */
  function Reassemble(chunks: seq<string>, spans: seq<Span>): string
    requires |chunks| == |spans|
    decreases |chunks|
  {
    if |chunks| == 0 then []
    else if |chunks| == 1 then chunks[0]
    else
      var k := |chunks| - 1;
      Reassemble(chunks[..k], spans[..k]) + DropPrefix(chunks[k], Shared(spans[k - 1], spans[k]))
  }

  /** One step of reassembly: appending the part of the next chunk that
      lies past the previous end extends the reassembled prefix. */
  lemma ReassembleStep(text: string, chunks: seq<string>, spans: seq<Span>)
    requires |chunks| == |spans| > 1
    requires var k := |spans| - 1;
      spans[k].start <= spans[k - 1].end <= spans[k].end <= |text| &&
      chunks[k] == text[spans[k].start..spans[k].end] &&
      Reassemble(chunks[..k], spans[..k]) == text[..spans[k - 1].end]
    ensures Reassemble(chunks, spans) == text[..spans[|spans| - 1].end]
  {
    var k := |spans| - 1;
    var prev, cur := spans[k - 1], spans[k];
    var d := Shared(prev, cur);
    assert d == prev.end - cur.start;
    SliceOfSlice(text, cur.start, cur.end, prev.end);
    assert DropPrefix(chunks[k], d) == text[prev.end..cur.end];
    PrefixThenSlice(text, prev.end, cur.end);
  }

  /** Chunks cut from `text` by spans that start at 0 and leave no gap
      between neighbours. */
  ghost predicate Chained(text: string, chunks: seq<string>, spans: seq<Span>)
  {
    |chunks| == |spans| > 0 &&
    (forall i :: 0 <= i < |spans| ==>
       spans[i].start <= spans[i].end <= |text| && chunks[i] == text[spans[i].start..spans[i].end]) &&
    spans[0].start == 0 &&
    (forall i :: 0 <= i < |spans| - 1 ==> spans[i + 1].start <= spans[i].end <= spans[i + 1].end)
  }

  lemma ChainedPrefix(text: string, chunks: seq<string>, spans: seq<Span>, k: nat)
    requires Chained(text, chunks, spans) && 0 < k <= |spans|
    ensures Chained(text, chunks[..k], spans[..k])
  {
    assert forall i :: 0 <= i < k ==> spans[..k][i] == spans[i] && chunks[..k][i] == chunks[i];
  }

  /** Reassembling a chained run yields the text up to the last end. */
  lemma {:induction false} ReassembleChained(text: string, chunks: seq<string>, spans: seq<Span>)
    requires Chained(text, chunks, spans)
    ensures Reassemble(chunks, spans) == text[..Last(spans).end]
    decreases |spans|
  {
    var k := |spans| - 1;
    if k > 0 {
      ChainedPrefix(text, chunks, spans, k);
      ReassembleChained(text, chunks[..k], spans[..k]);
      assert Last(spans[..k]) == spans[k - 1];
      assert spans[k].start <= spans[k - 1].end <= spans[k].end <= |text|;
      assert chunks[k] == text[spans[k].start..spans[k].end];
      ReassembleStep(text, chunks, spans);
    } else {
      assert chunks[0] == text[0..spans[0].end];
      assert text[0..spans[0].end] == text[..spans[0].end];
    }
  }

  /** Removing the shared characters and concatenating gives back the text. */
  lemma Reconstruction(text: string, chunkSize: int, overlap: int)
    requires chunkSize > 0 && overlap >= 0
    ensures Reassemble(Chunks(text, chunkSize, overlap), Spans(|text|, chunkSize, overlap)) == text
  {
    var spans := Spans(|text|, chunkSize, overlap);
    RunShape(|text|, chunkSize, overlap);
    if |spans| > 0 {
      assert Chained(text, Chunks(text, chunkSize, overlap), spans);
      ReassembleChained(text, Chunks(text, chunkSize, overlap), spans);
      assert text[..|text|] == text;
    }
  }

  lemma {:induction false} ReassembleDisjoint(chunks: seq<string>, spans: seq<Span>)
    requires |chunks| == |spans|
    requires forall i :: 0 <= i < |spans| - 1 ==> spans[i + 1].start == spans[i].end
    ensures Reassemble(chunks, spans) == Join("", chunks)
    decreases |chunks|
  {
    if |chunks| > 1 {
      var k := |chunks| - 1;
      ReassembleDisjoint(chunks[..k], spans[..k]);
      assert Shared(spans[k - 1], spans[k]) == 0;
    }
  }

  lemma {:induction false} DisjointCount(n: nat, chunkSize: int, overlap: int, start: nat)
    requires chunkSize > 0 && (overlap == 0 || overlap >= chunkSize)
    requires start < n
    ensures var c := |SpansFrom(n, chunkSize, overlap, start)|;
      (c - 1) * chunkSize < n - start <= c * chunkSize
    decreases n - start
  {
    var end := WindowEnd(n, chunkSize, start);
    assert NextStart(start, end, overlap) == end;
    SpansFromStep(n, chunkSize, overlap, start, end, end);
    if end < n {
      DisjointCount(n, chunkSize, overlap, end);
      var c := |SpansFrom(n, chunkSize, overlap, end)|;
      assert |SpansFrom(n, chunkSize, overlap, start)| == c + 1;
      assert (c + 1) * chunkSize == c * chunkSize + chunkSize;
      assert (c - 1) * chunkSize == c * chunkSize - chunkSize;
    } else {
      assert |SpansFrom(n, chunkSize, overlap, start)| == 1;
    }
  }

  /** With no overlap, or an overlap at least as wide as a window, the guard
      always jumps to the end of the window: the chunks are disjoint,
      concatenate to the text, and their number is the ceiling of
      len(text) / chunkSize (the least count whose windows can hold the text). */
  lemma DisjointChunks(text: string, chunkSize: int, overlap: int)
    requires chunkSize > 0 && (overlap == 0 || overlap >= chunkSize)
    ensures var spans := Spans(|text|, chunkSize, overlap);
      (forall i :: 0 <= i < |spans| - 1 ==> spans[i + 1].start == spans[i].end) &&
      Join("", Chunks(text, chunkSize, overlap)) == text &&
      (|text| > 0 ==>
         (|spans| - 1) * chunkSize < |text| <= |spans| * chunkSize)
  {
    var spans := Spans(|text|, chunkSize, overlap);
    SpansFromIsRun(|text|, chunkSize, overlap, 0);
    forall i | 0 <= i < |spans| - 1 ensures spans[i + 1].start == spans[i].end {
      assert spans[i].end - spans[i].start <= chunkSize;
    }
    Reconstruction(text, chunkSize, overlap);
    ReassembleDisjoint(Chunks(text, chunkSize, overlap), spans);
    if |text| > 0 {
      DisjointCount(|text|, chunkSize, overlap, 0);
    }
  }

  /** When `0 < overlap < chunkSize`, the window that reaches the end of the
      text is followed by one more chunk exactly when stepping back by
      `overlap` from the end still lies beyond that window's start; that
      chunk is the last `overlap` characters of the text, a suffix of the
      chunk before it, and nothing follows it. */
  lemma TrailingChunk(text: string, chunkSize: int, overlap: int, i: nat)
    requires 0 < overlap < chunkSize
    requires i < |Spans(|text|, chunkSize, overlap)|
    requires Spans(|text|, chunkSize, overlap)[i].end == |text|
    ensures var spans := Spans(|text|, chunkSize, overlap);
      var chunks := Chunks(text, chunkSize, overlap);
      if |text| - overlap > spans[i].start then
        |spans| == i + 2 && spans[i + 1] == Span(|text| - overlap, |text|) &&
        chunks[i + 1] == text[|text| - overlap..] &&
        chunks[i + 1] == chunks[i][|chunks[i]| - overlap..]
      else
        |spans| == i + 1
  {
    var n := |text|;
    var spans := Spans(n, chunkSize, overlap);
    TrailingSpans(n, chunkSize, overlap, i);
    if n - overlap > spans[i].start {
      assert spans[i + 1] == spans[i + 1..][0];
      var chunks := Chunks(text, chunkSize, overlap);
      assert chunks[i] == text[spans[i].start..n];
      assert chunks[i + 1] == text[n - overlap..n];
    }
  }

  /** The windows after window `i` when window `i` reaches the end of the
      text and `0 < overlap < chunkSize`. */
  lemma TrailingSpans(n: nat, chunkSize: int, overlap: int, i: nat)
    requires 0 < overlap < chunkSize
    requires i < |Spans(n, chunkSize, overlap)|
    requires Spans(n, chunkSize, overlap)[i].end == n
    ensures var spans := Spans(n, chunkSize, overlap);
      spans[i + 1..] == if n - overlap > spans[i].start then [Span(n - overlap, n)] else []
  {
    var spans := Spans(n, chunkSize, overlap);
    SpansFromIsRun(n, chunkSize, overlap, 0);
    RunSuffix(n, chunkSize, overlap, 0, spans, i);
    if n - overlap > spans[i].start {
      var s := n - overlap;
      assert NextStart(spans[i].start, n, overlap) == s;
      SpansFromStep(n, chunkSize, overlap, s, n, n);
    } else {
      assert NextStart(spans[i].start, n, overlap) == n;
    }
  }

  /** One turn of the cursor loop. */
  lemma SpansFromStep(n: nat, chunkSize: int, overlap: int, start: nat, end: nat, next: nat)
    requires chunkSize > 0 && start < n
    requires end == WindowEnd(n, chunkSize, start) && next == NextStart(start, end, overlap)
    ensures SpansFrom(n, chunkSize, overlap, start) == [Span(start, end)] + SpansFrom(n, chunkSize, overlap, next)
  {
  }

  /** `chunk_text("ABCDEFGHIJ", 4, 1)`: the window ending at the end of the
      text is followed by the one-character suffix "J". */
  lemma ExampleOverlapping()
    ensures Chunks("ABCDEFGHIJ", 4, 1) == ["ABCD", "DEFG", "GHIJ", "J"]
  {
    SpansFromStep(10, 4, 1, 9, 10, 10);
    SpansFromStep(10, 4, 1, 6, 10, 9);
    SpansFromStep(10, 4, 1, 3, 7, 6);
    SpansFromStep(10, 4, 1, 0, 4, 3);
    var spans := [Span(0, 4), Span(3, 7), Span(6, 10), Span(9, 10)];
    assert Spans(10, 4, 1) == spans;
    var text := "ABCDEFGHIJ";
    var chunks := Slices(text, spans);
    assert chunks[0] == text[0..4] == "ABCD";
    assert chunks[1] == text[3..7] == "DEFG";
    assert chunks[2] == text[6..10] == "GHIJ";
    assert chunks[3] == text[9..10] == "J";
  }

  /** `chunk_text("ABCDEFGHIJ", 5, 5)`: the overlap equals the window size,
      so the guard jumps and the two chunks are disjoint. */
  lemma ExampleOverlapEqualsSize()
    ensures Chunks("ABCDEFGHIJ", 5, 5) == ["ABCDE", "FGHIJ"]
  {
    SpansFromStep(10, 5, 5, 5, 10, 10);
    SpansFromStep(10, 5, 5, 0, 5, 5);
    var spans := [Span(0, 5), Span(5, 10)];
    assert Spans(10, 5, 5) == spans;
    var text := "ABCDEFGHIJ";
    var chunks := Slices(text, spans);
    assert chunks[0] == text[0..5] == "ABCDE";
    assert chunks[1] == text[5..10] == "FGHIJ";
  }

  /** The settings the sidebar sliders can produce: chunk size 500 to 2000 in
      steps of 100, overlap 0 to 300 in steps of 50. */
  predicate SliderSettings(chunkSize: int, overlap: int)
  {
    500 <= chunkSize <= 2000 && chunkSize % 100 == 0 &&
    0 <= overlap <= 300 && overlap % 50 == 0
  }

  /** Every slider setting meets the chunker's precondition and keeps the
      overlap strictly below the window size, so the guard never fires
      before the end of the text: every window that stops short of the end
      is followed by one that opens exactly `overlap` characters before its end. */
  lemma SliderSettingsStepBack(n: nat, chunkSize: int, overlap: int)
    requires SliderSettings(chunkSize, overlap)
    ensures chunkSize > 0 && 0 <= overlap < chunkSize
    ensures var spans := Spans(n, chunkSize, overlap);
      forall i :: 0 <= i < |spans| - 1 && spans[i].end < n ==>
        spans[i].end - spans[i].start == chunkSize && spans[i + 1].start == spans[i].end - overlap
  {
    var spans := Spans(n, chunkSize, overlap);
    SpansFromIsRun(n, chunkSize, overlap, 0);
    forall i | 0 <= i < |spans| - 1 && spans[i].end < n
      ensures spans[i].end - spans[i].start == chunkSize && spans[i + 1].start == spans[i].end - overlap
    {
      assert spans[i].end == WindowEnd(n, chunkSize, spans[i].start);
      assert spans[i + 1].start == NextStart(spans[i].start, spans[i].end, overlap);
    }
  }
}
