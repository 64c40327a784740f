/**
 * `chunk_text` of rag_chatbot/utils.py, as written.
 *
 * The source loop `while start < text_length` does not terminate for every input
 * (see PositiveOverlapNeverFinishes), so the model runs it under a step budget
 * `maxSteps`: `Finished` is the value the source returns, `Suspended` is the loop
 * state when the budget ran out while the source would still be looping.
 */
module Chunking {
  import opened Basics
  import opened Text

  /** The two ValueErrors raised before any chunk is produced. */
  datatype ChunkError =
    | SizeNotPositive      // "chunk_size must be positive"
    | OverlapNotSmaller    // "chunk_overlap must be smaller than chunk_size"

  /** The loop variables: the cursor `start` and the `chunks` list built so far. */
  datatype Cursor = Cursor(start: int, chunks: seq<string>)

  datatype Outcome =
    | Invalid(error: ChunkError)
    | Finished(chunks: seq<string>)
    | Suspended(cursor: Cursor)

  predicate ValidParameters(chunkSize: int, chunkOverlap: int) {
    chunkSize > 0 && chunkOverlap < chunkSize
  }

  /** `end = min(start + chunk_size, text_length)`. */
  function WindowEnd(n: int, chunkSize: int, start: int): int {
    Min(start + chunkSize, n)
  }

  /** The cursor update after a window: `start = end - chunk_overlap`, clamped at 0, bumped by 1 when equal to `end`. */
  function NextStart(n: int, chunkSize: int, chunkOverlap: int, start: int): (r: int)
    ensures r >= 0
  {
    var end := WindowEnd(n, chunkSize, start);
    var s := end - chunkOverlap;
    var s' := if s < 0 then 0 else s;
    if s' == end then s' + 1 else s'
  }

  /** A chunk the source may emit: the non-empty strip of a window `text[s:e]` that is at most `chunkSize` long. */
  ghost predicate FromWindow(text: string, chunkSize: int, c: string) {
    c != [] && exists s, e :: 0 <= s < e <= |text| && e - s <= chunkSize && c == Strip(text[s..e])
  }

  ghost predicate AllFromWindows(text: string, chunkSize: int, cs: seq<string>) {
    forall c :: c in cs ==> FromWindow(text, chunkSize, c)
  }

  /** `if chunk: chunks.append(chunk)`. */
  function Keep(chunks: seq<string>, chunk: string): seq<string> {
    if chunk != [] then chunks + [chunk] else chunks
  }

  /** One iteration of the loop body. */
  function Step(text: string, chunkSize: int, chunkOverlap: int, c: Cursor): (r: Cursor)
    requires 0 <= c.start < |text| && chunkSize > 0
  {
    var end := WindowEnd(|text|, chunkSize, c.start);
    var chunk := Strip(text[c.start..end]);
    Cursor(NextStart(|text|, chunkSize, chunkOverlap, c.start), Keep(c.chunks, chunk))
  }

  /** The loop run from cursor `c` for at most `fuel` iterations. */
  function Run(text: string, chunkSize: int, chunkOverlap: int, c: Cursor, fuel: nat): (r: Outcome)
    requires chunkSize > 0 && 0 <= c.start
    ensures !r.Invalid?
    decreases fuel
  {
    if c.start >= |text| then Finished(c.chunks)
    else if fuel == 0 then Suspended(c)
    else Run(text, chunkSize, chunkOverlap, Step(text, chunkSize, chunkOverlap, c), fuel - 1)
  }

  /** `chunk_text(text, chunk_size, chunk_overlap)` given a budget of `maxSteps` iterations. */
  function Chunks(text: string, chunkSize: int, chunkOverlap: int, maxSteps: nat): Outcome {
    if chunkSize <= 0 then Invalid(SizeNotPositive)
    else if chunkOverlap >= chunkSize then Invalid(OverlapNotSmaller)
    else Run(text, chunkSize, chunkOverlap, Cursor(0, []), maxSteps)
  }

  method ChunkText(text: string, chunkSize: int, chunkOverlap: int, maxSteps: nat) returns (r: Outcome)
    ensures r == Chunks(text, chunkSize, chunkOverlap, maxSteps)
    ensures r.Invalid? <==> !ValidParameters(chunkSize, chunkOverlap)
    ensures r.Invalid? ==> r.error == (if chunkSize <= 0 then SizeNotPositive else OverlapNotSmaller)
    ensures r.Finished? ==> AllFromWindows(text, chunkSize, r.chunks)
    ensures r.Suspended? ==> AllFromWindows(text, chunkSize, r.cursor.chunks) && 0 <= r.cursor.start < |text|
    ensures text == [] && ValidParameters(chunkSize, chunkOverlap) ==> r == Finished([])
  {
    if chunkSize <= 0 {
      return Invalid(SizeNotPositive);
    }
    if chunkOverlap >= chunkSize {
      return Invalid(OverlapNotSmaller);
    }
    var chunks: seq<string> := [];
    var start := 0;
    var textLength := |text|;
    var steps := 0;
    while start < textLength
      invariant 0 <= start && steps <= maxSteps
      invariant Run(text, chunkSize, chunkOverlap, Cursor(start, chunks), maxSteps - steps)
             == Run(text, chunkSize, chunkOverlap, Cursor(0, []), maxSteps)
      decreases maxSteps - steps
    {
      if steps == maxSteps {
        r := Suspended(Cursor(start, chunks));
        ChunksFromWindows(text, chunkSize, chunkOverlap, maxSteps);
        return;
      }
      ghost var before := Cursor(start, chunks);
      var end := Min(start + chunkSize, textLength);
      var chunk := Strip(text[start..end]);
      if chunk != [] {
        chunks := chunks + [chunk];
      }
      assert chunks == Keep(before.chunks, chunk);
      start := end - chunkOverlap;
      if start < 0 {
        start := 0;
      }
      if start == end {
        start := start + 1;
      }
      assert start == NextStart(textLength, chunkSize, chunkOverlap, before.start);
      RunStep(text, chunkSize, chunkOverlap, before, maxSteps - steps);
      steps := steps + 1;
    }
    r := Finished(chunks);
    ChunksFromWindows(text, chunkSize, chunkOverlap, maxSteps);
  }

  // ---------------------------------------------------------------------------
  // Properties of the loop as written

  /** One unfolding of the loop. */
  lemma RunStep(text: string, chunkSize: int, chunkOverlap: int, c: Cursor, fuel: nat)
    requires chunkSize > 0 && 0 <= c.start < |text| && fuel > 0
    ensures Run(text, chunkSize, chunkOverlap, c, fuel) == Run(text, chunkSize, chunkOverlap, Step(text, chunkSize, chunkOverlap, c), fuel - 1)
  {
  }

  /** Every chunk in any outcome of the loop is the non-empty strip of a window of at most `chunkSize` characters. */
  lemma {:induction false} RunChunksFromWindows(text: string, chunkSize: int, chunkOverlap: int, c: Cursor, fuel: nat)
    requires chunkSize > 0 && 0 <= c.start
    requires AllFromWindows(text, chunkSize, c.chunks)
    ensures var r := Run(text, chunkSize, chunkOverlap, c, fuel);
      (r.Finished? ==> AllFromWindows(text, chunkSize, r.chunks)) &&
      (r.Suspended? ==> AllFromWindows(text, chunkSize, r.cursor.chunks))
    decreases fuel
  {
    if c.start < |text| && fuel > 0 {
      var end := WindowEnd(|text|, chunkSize, c.start);
      var chunk := Strip(text[c.start..end]);
      if chunk != [] {
        assert FromWindow(text, chunkSize, chunk);
      }
      RunChunksFromWindows(text, chunkSize, chunkOverlap, Step(text, chunkSize, chunkOverlap, c), fuel - 1);
    }
  }

  lemma ChunksFromWindows(text: string, chunkSize: int, chunkOverlap: int, maxSteps: nat)
    ensures var r := Chunks(text, chunkSize, chunkOverlap, maxSteps);
      (r.Finished? ==> AllFromWindows(text, chunkSize, r.chunks)) &&
      (r.Suspended? ==> AllFromWindows(text, chunkSize, r.cursor.chunks))
  {
    if ValidParameters(chunkSize, chunkOverlap) {
      RunChunksFromWindows(text, chunkSize, chunkOverlap, Cursor(0, []), maxSteps);
    }
  }

  /** The parameter checks run before the loop: they alone decide whether an error is raised, and a negative overlap passes them. */
  lemma ValidationBeforeAnyChunk(text: string, chunkSize: int, chunkOverlap: int, maxSteps: nat)
    ensures Chunks(text, chunkSize, chunkOverlap, maxSteps).Invalid? <==> (chunkSize <= 0 || chunkOverlap >= chunkSize)
    ensures chunkSize <= 0 ==> Chunks(text, chunkSize, chunkOverlap, maxSteps) == Invalid(SizeNotPositive)
    ensures chunkSize > 0 && chunkOverlap < 0 ==> !Chunks(text, chunkSize, chunkOverlap, maxSteps).Invalid?
  {
  }

  /** With an overlap of 0 the next window starts one past the previous end: `text[end]` is skipped. */
  lemma ZeroOverlapSkipsOneCharacter(n: int, chunkSize: int, start: int)
    requires chunkSize > 0 && 0 <= start < n
    ensures NextStart(n, chunkSize, 0, start) == WindowEnd(n, chunkSize, start) + 1
  {
  }

  /** With a non-positive overlap each iteration moves the cursor forward by at least one character. */
  lemma NonPositiveOverlapAdvances(n: int, chunkSize: int, chunkOverlap: int, start: int)
    requires chunkSize > 0 && chunkOverlap <= 0 && 0 <= start < n
    ensures NextStart(n, chunkSize, chunkOverlap, start) > start
    ensures NextStart(n, chunkSize, chunkOverlap, start) == WindowEnd(n, chunkSize, start) - chunkOverlap + (if chunkOverlap == 0 then 1 else 0)
  {
  }

  lemma {:induction false} NonPositiveOverlapRunFinishes(text: string, chunkSize: int, chunkOverlap: int, c: Cursor, fuel: nat)
    requires chunkSize > 0 && chunkOverlap <= 0 && 0 <= c.start
    requires fuel >= |text| - c.start
    ensures Run(text, chunkSize, chunkOverlap, c, fuel).Finished?
    decreases fuel
  {
    if c.start < |text| {
      NonPositiveOverlapAdvances(|text|, chunkSize, chunkOverlap, c.start);
      NonPositiveOverlapRunFinishes(text, chunkSize, chunkOverlap, Step(text, chunkSize, chunkOverlap, c), fuel - 1);
    }
  }

  /** With `chunk_overlap <= 0` the loop terminates within `len(text)` iterations. */
  lemma NonPositiveOverlapTerminates(text: string, chunkSize: int, chunkOverlap: int, maxSteps: nat)
    requires chunkSize > 0 && chunkOverlap <= 0 && maxSteps >= |text|
    ensures Chunks(text, chunkSize, chunkOverlap, maxSteps).Finished?
  {
    NonPositiveOverlapRunFinishes(text, chunkSize, chunkOverlap, Cursor(0, []), maxSteps);
  }

  /** Once the loop has finished, a larger budget changes nothing: the outcome is the source's return value. */
  lemma {:induction false} FinishedIsStable(text: string, chunkSize: int, chunkOverlap: int, c: Cursor, fuel: nat, more: nat)
    requires chunkSize > 0 && 0 <= c.start
    requires Run(text, chunkSize, chunkOverlap, c, fuel).Finished?
    ensures Run(text, chunkSize, chunkOverlap, c, fuel + more) == Run(text, chunkSize, chunkOverlap, c, fuel)
    decreases fuel
  {
    if c.start < |text| {
      FinishedIsStable(text, chunkSize, chunkOverlap, Step(text, chunkSize, chunkOverlap, c), fuel - 1, more);
    }
  }

  /** `chunk_text("ABCDEFGHIJ", 4, 0)` returns `["ABCD", "FGHI"]`: "E" and "J" are never in any chunk. */
  lemma ZeroOverlapExample(maxSteps: nat)
    requires maxSteps >= 2
    ensures Chunks("ABCDEFGHIJ", 4, 0, maxSteps) == Finished(["ABCD", "FGHI"])
  {
    var text := "ABCDEFGHIJ";
    assert text[0..4] == "ABCD" && text[5..9] == "FGHI";
    StripKeepsTrimmed(text[0..4]);
    StripKeepsTrimmed(text[5..9]);
    var c1 := Step(text, 4, 0, Cursor(0, []));
    assert c1 == Cursor(5, ["ABCD"]);
    var c2 := Step(text, 4, 0, c1);
    assert c2 == Cursor(10, ["ABCD", "FGHI"]);
    assert Run(text, 4, 0, Cursor(0, []), maxSteps) == Run(text, 4, 0, c1, maxSteps - 1);
    assert Run(text, 4, 0, c1, maxSteps - 1) == Run(text, 4, 0, c2, maxSteps - 2);
  }

  /** While the window ends before the text does, a positive overlap starts the next window `chunkOverlap` characters before the previous end. */
  lemma PositiveOverlapAdvance(n: int, chunkSize: int, chunkOverlap: int, start: int)
    requires 0 < chunkOverlap < chunkSize && 0 <= start && start + chunkSize < n
    ensures NextStart(n, chunkSize, chunkOverlap, start) == WindowEnd(n, chunkSize, start) - chunkOverlap
    ensures NextStart(n, chunkSize, chunkOverlap, start) > start
  {
  }

  /** Once a window reaches the end of the text, the cursor becomes `max(0, len(text) - chunkOverlap)` and stays there. */
  lemma PositiveOverlapFixedPoint(n: int, chunkSize: int, chunkOverlap: int, start: int)
    requires 0 < chunkOverlap < chunkSize && 0 <= start < n && start + chunkSize >= n
    ensures NextStart(n, chunkSize, chunkOverlap, start) == Max(0, n - chunkOverlap)
    ensures NextStart(n, chunkSize, chunkOverlap, Max(0, n - chunkOverlap)) == Max(0, n - chunkOverlap)
    ensures Max(0, n - chunkOverlap) < n
  {
  }

  /** With a positive overlap the cursor never leaves `[0, len(text))`. */
  lemma PositiveOverlapStaysInside(n: int, chunkSize: int, chunkOverlap: int, start: int)
    requires 0 < chunkOverlap < chunkSize && 0 <= start < n
    ensures 0 <= NextStart(n, chunkSize, chunkOverlap, start) < n
  {
  }

  lemma {:induction false} PositiveOverlapRunSuspends(text: string, chunkSize: int, chunkOverlap: int, c: Cursor, fuel: nat)
    requires 0 < chunkOverlap < chunkSize && 0 <= c.start < |text|
    ensures Run(text, chunkSize, chunkOverlap, c, fuel).Suspended?
    decreases fuel
  {
    if fuel > 0 {
      PositiveOverlapStaysInside(|text|, chunkSize, chunkOverlap, c.start);
      PositiveOverlapRunSuspends(text, chunkSize, chunkOverlap, Step(text, chunkSize, chunkOverlap, c), fuel - 1);
    }
  }

  /** For `0 < chunk_overlap < chunk_size` and non-empty text the loop never returns, whatever the budget. */
  lemma PositiveOverlapNeverFinishes(text: string, chunkSize: int, chunkOverlap: int, maxSteps: nat)
    requires 0 < chunkOverlap < chunkSize && text != []
    ensures Chunks(text, chunkSize, chunkOverlap, maxSteps).Suspended?
  {
    PositiveOverlapRunSuspends(text, chunkSize, chunkOverlap, Cursor(0, []), maxSteps);
  }

  function Repeat(x: string, k: nat): (r: seq<string>)
    ensures |r| == k && forall i :: 0 <= i < k ==> r[i] == x
  {
    if k == 0 then [] else Repeat(x, k - 1) + [x]
  }

  /** At the fixed point every further iteration appends the same last chunk again, so the list grows without bound. */
  lemma {:induction false} PositiveOverlapRepeatsLastChunk(text: string, chunkSize: int, chunkOverlap: int, chunks: seq<string>, k: nat)
    requires 0 < chunkOverlap < chunkSize && text != []
    ensures var p := Max(0, |text| - chunkOverlap);
      var last := Strip(text[p..]);
      Run(text, chunkSize, chunkOverlap, Cursor(p, chunks), k)
        == Suspended(Cursor(p, chunks + if last == [] then [] else Repeat(last, k)))
    decreases k
  {
    var p := Max(0, |text| - chunkOverlap);
    var last := Strip(text[p..]);
    PositiveOverlapFixedPoint(|text|, chunkSize, chunkOverlap, p);
    if k > 0 {
      assert WindowEnd(|text|, chunkSize, p) == |text|;
      assert text[p..|text|] == text[p..];
      var c' := Step(text, chunkSize, chunkOverlap, Cursor(p, chunks));
      assert c' == Cursor(p, chunks + if last == [] then [] else [last]);
      PositiveOverlapRepeatsLastChunk(text, chunkSize, chunkOverlap, c'.chunks, k - 1);
      if last != [] {
        assert [last] + Repeat(last, k - 1) == Repeat(last, k);
        assert chunks + [last] + Repeat(last, k - 1) == chunks + Repeat(last, k);
      }
    } else {
      assert chunks + [] == chunks;
    }
  }
}
