/**
 * The chunker the documentation of rag_chatbot/utils.py describes: overlapping windows
 * that cover the text and stop once a window reaches its end. It differs from the loop as
 * written in two places: the cursor is moved back by the overlap only while the window ends
 * before the text does, and there is no "+1" bump, so an overlap of 0 gives adjacent windows.
 */
module CorrectedChunking {
  import opened Basics
  import opened Wrappers
  import opened Text
  import Chunking

  /** The slice `text[start:end]` cut by one iteration. */
  datatype Window = Window(start: int, end: int)

  predicate WindowsWithin(n: nat, ws: seq<Window>) {
    forall k :: 0 <= k < |ws| ==> 0 <= ws[k].start < ws[k].end <= n
  }

  /** The windows the corrected loop cuts, from cursor `start` on. */
  function Windows(n: nat, chunkSize: int, chunkOverlap: int, start: nat): (ws: seq<Window>)
    requires chunkSize > 0 && chunkOverlap < chunkSize
    ensures start < n ==> ws != [] && ws[0] == Window(start, Chunking.WindowEnd(n, chunkSize, start))
    ensures start < n && chunkOverlap >= 0 ==> ws[|ws| - 1].end == n
    decreases n - start
  {
    if start >= n then []
    else
      var end := Chunking.WindowEnd(n, chunkSize, start);
      if end == n then [Window(start, end)]
      else [Window(start, end)] + Windows(n, chunkSize, chunkOverlap, end - chunkOverlap)
  }

  /** One unfolding of `Windows`. */
  lemma WindowsStep(n: nat, chunkSize: int, chunkOverlap: int, start: nat)
    requires chunkSize > 0 && chunkOverlap < chunkSize && start < n
    ensures var end := Chunking.WindowEnd(n, chunkSize, start);
      (end < n ==> end - chunkOverlap > start) &&
      Windows(n, chunkSize, chunkOverlap, start)
      == [Window(start, end)] + (if end == n then [] else Windows(n, chunkSize, chunkOverlap, end - chunkOverlap))
  {
  }

  /** Every window is a non-empty slice of the text, at most `chunkSize` long, at or after the cursor. */
  lemma {:induction false} WindowsShape(n: nat, chunkSize: int, chunkOverlap: int, start: nat)
    requires chunkSize > 0 && chunkOverlap < chunkSize
    ensures WindowsWithin(n, Windows(n, chunkSize, chunkOverlap, start))
    ensures forall w :: w in Windows(n, chunkSize, chunkOverlap, start) ==> start <= w.start && w.end - w.start <= chunkSize
    decreases n - start
  {
    if start < n {
      WindowsStep(n, chunkSize, chunkOverlap, start);
      var end := Chunking.WindowEnd(n, chunkSize, start);
      if end < n {
        WindowsShape(n, chunkSize, chunkOverlap, end - chunkOverlap);
      }
    }
  }

  /** The concatenation of `piece(w)` over the windows, in order. */
  function Concat(piece: Window -> seq<string>, ws: seq<Window>): seq<string> {
    if ws == [] then [] else piece(ws[0]) + Concat(piece, ws[1..])
  }

  lemma {:induction false} ConcatAppend(piece: Window -> seq<string>, a: seq<Window>, b: seq<Window>)
    ensures Concat(piece, a + b) == Concat(piece, a) + Concat(piece, b)
  {
    if a == [] {
      assert a + b == b;
    } else {
      assert (a + b)[0] == a[0];
      assert (a + b)[1..] == a[1..] + b;
      ConcatAppend(piece, a[1..], b);
    }
  }

  /** What window `w` contributes: the strip of `text[w.start:w.end]` when non-empty, else nothing. */
  function Piece(text: string, w: Window): seq<string> {
    if 0 <= w.start <= w.end <= |text| then
      Chunking.Keep([], Strip(text[w.start..w.end]))
    else []
  }

  /** The non-empty strips of the windows, in order. */
  function ChunksOf(text: string, ws: seq<Window>): seq<string> {
    Concat(w => Piece(text, w), ws)
  }

  lemma ChunksOfCons(text: string, ws: seq<Window>)
    requires ws != []
    ensures ChunksOf(text, ws) == Piece(text, ws[0]) + ChunksOf(text, ws[1..])
  {
  }

  /** Each chunk is the non-empty strip of one of the windows. */
  lemma {:induction false} ChunksOfAreStrips(text: string, ws: seq<Window>)
    requires WindowsWithin(|text|, ws)
    ensures |ChunksOf(text, ws)| <= |ws|
    ensures forall c :: c in ChunksOf(text, ws) ==>
      c != [] && exists k :: 0 <= k < |ws| && c == Strip(text[ws[k].start..ws[k].end])
  {
    if ws != [] {
      ChunksOfAreStrips(text, ws[1..]);
      assert ChunksOf(text, ws) == Piece(text, ws[0]) + ChunksOf(text, ws[1..]);
      forall c | c in ChunksOf(text, ws)
        ensures c != [] && exists k :: 0 <= k < |ws| && c == Strip(text[ws[k].start..ws[k].end])
      {
        if c in Piece(text, ws[0]) {
          assert c == Strip(text[ws[0].start..ws[0].end]);
        } else {
          assert c in ChunksOf(text, ws[1..]);
          var k :| 0 <= k < |ws[1..]| && c == Strip(text[ws[1..][k].start..ws[1..][k].end]);
          assert ws[1..][k] == ws[k + 1];
        }
      }
    }
  }

  /** The corrected `chunk_text`: same validation, then the non-empty strips of the windows from cursor 0. */
  function Corrected(text: string, chunkSize: int, chunkOverlap: int): Result<seq<string>, Chunking.ChunkError> {
    if chunkSize <= 0 then Failure(Chunking.SizeNotPositive)
    else if chunkOverlap >= chunkSize then Failure(Chunking.OverlapNotSmaller)
    else Success(ChunksOf(text, Windows(|text|, chunkSize, chunkOverlap, 0)))
  }

  /** Cutting one more window extends the chunk list by that window's piece. */
  lemma ChunksOfSnoc(text: string, done: seq<Window>, w: Window)
    ensures ChunksOf(text, done + [w]) == ChunksOf(text, done) + Piece(text, w)
  {
    ConcatAppend(w => Piece(text, w), done, [w]);
    assert [w][1..] == [];
  }

  method ChunkTextCorrected(text: string, chunkSize: int, chunkOverlap: int) returns (r: Result<seq<string>, Chunking.ChunkError>)
    ensures r == Corrected(text, chunkSize, chunkOverlap)
    ensures r.Failure? <==> !Chunking.ValidParameters(chunkSize, chunkOverlap)
  {
    if chunkSize <= 0 {
      return Failure(Chunking.SizeNotPositive);
    }
    if chunkOverlap >= chunkSize {
      return Failure(Chunking.OverlapNotSmaller);
    }
    var textLength := |text|;
    var chunks: seq<string> := [];
    var start: nat := 0;
    ghost var done: seq<Window> := [];
    while start < textLength
      invariant CutSoFar(text, chunkSize, chunkOverlap, done, start, chunks)
      decreases textLength - start
    {
      var end := Min(start + chunkSize, textLength);
      var chunk := Strip(text[start..end]);
      ghost var before := chunks;
      if chunk != [] {
        chunks := chunks + [chunk];
      }
      assert chunks == Chunking.Keep(before, chunk);
      CutWindow(text, chunkSize, chunkOverlap, done, before, start);
      done := done + [Window(start, end)];
      if end == textLength {
        return Success(chunks);
      }
      start := end - chunkOverlap;
    }
    CutAll(text, chunkSize, chunkOverlap, done, start, chunks);
    return Success(chunks);
  }

  /** The loop's window bookkeeping: cutting the window at `start` moves it from the pending windows to the done ones. */
  lemma WindowsAdvance(n: nat, chunkSize: int, chunkOverlap: int, done: seq<Window>, start: nat)
    requires chunkSize > 0 && chunkOverlap < chunkSize && start < n
    requires done + Windows(n, chunkSize, chunkOverlap, start) == Windows(n, chunkSize, chunkOverlap, 0)
    ensures var end := Chunking.WindowEnd(n, chunkSize, start);
      if end == n then done + [Window(start, end)] == Windows(n, chunkSize, chunkOverlap, 0)
      else (end - chunkOverlap > start &&
            (done + [Window(start, end)]) + Windows(n, chunkSize, chunkOverlap, end - chunkOverlap) == Windows(n, chunkSize, chunkOverlap, 0))
  {
    WindowsStep(n, chunkSize, chunkOverlap, start);
    var end := Chunking.WindowEnd(n, chunkSize, start);
    if end == n {
      assert [Window(start, end)] + [] == [Window(start, end)];
    } else {
      AppendAssoc(done, [Window(start, end)], Windows(n, chunkSize, chunkOverlap, end - chunkOverlap));
    }
  }

  /** The corrected loop's invariant: `done` are the windows cut so far, `start` opens the next one, and `chunks` are their pieces. */
  ghost predicate CutSoFar(text: string, chunkSize: int, chunkOverlap: int, done: seq<Window>, start: int, chunks: seq<string>)
    requires chunkSize > 0 && chunkOverlap < chunkSize
  {
    0 <= start && done + Windows(|text|, chunkSize, chunkOverlap, start) == Windows(|text|, chunkSize, chunkOverlap, 0) && chunks == ChunksOf(text, done)
  }

  /** One pass of the corrected loop keeps the invariant, and the pass that reaches the end has cut every window. */
  lemma CutWindow(text: string, chunkSize: int, chunkOverlap: int, done: seq<Window>, chunks: seq<string>, start: nat)
    requires chunkSize > 0 && chunkOverlap < chunkSize && start < |text|
    requires CutSoFar(text, chunkSize, chunkOverlap, done, start, chunks)
    ensures var end := Chunking.WindowEnd(|text|, chunkSize, start);
      end == |text| ==> Chunking.Keep(chunks, Strip(text[start..end])) == ChunksOf(text, Windows(|text|, chunkSize, chunkOverlap, 0))
    ensures var end := Chunking.WindowEnd(|text|, chunkSize, start);
      end < |text| ==> (end - chunkOverlap > start &&
                        CutSoFar(text, chunkSize, chunkOverlap, done + [Window(start, end)], end - chunkOverlap, Chunking.Keep(chunks, Strip(text[start..end]))))
  {
    var end := Chunking.WindowEnd(|text|, chunkSize, start);
    ChunksOfSnoc(text, done, Window(start, end));
    KeepAppends(chunks, Strip(text[start..end]));
    WindowsAdvance(|text|, chunkSize, chunkOverlap, done, start);
  }

  /** Once `start` has passed the end, nothing is left to cut. */
  lemma CutAll(text: string, chunkSize: int, chunkOverlap: int, done: seq<Window>, start: int, chunks: seq<string>)
    requires chunkSize > 0 && chunkOverlap < chunkSize && start >= |text|
    requires CutSoFar(text, chunkSize, chunkOverlap, done, start, chunks)
    ensures chunks == ChunksOf(text, Windows(|text|, chunkSize, chunkOverlap, 0))
  {
    assert done + [] == done;
  }

  lemma KeepAppends(chunks: seq<string>, chunk: string)
    ensures Chunking.Keep(chunks, chunk) == chunks + Chunking.Keep([], chunk)
  {
  }

  /** Each window but the last is `chunkSize` long and the next starts `chunkOverlap` characters before its end. */
  predicate OverlapExactly(ws: seq<Window>, chunkSize: int, chunkOverlap: int) {
    forall k :: 0 <= k < |ws| - 1 ==> ws[k].end - ws[k].start == chunkSize && ws[k + 1].start == ws[k].end - chunkOverlap
  }

  /** Position `i` lies inside one of the windows. */
  predicate Covered(ws: seq<Window>, i: int) {
    exists k :: 0 <= k < |ws| && ws[k].start <= i < ws[k].end
  }

  /**
   * For `0 <= chunk_overlap < chunk_size` the windows tile the text: each but the last is
   * exactly `chunk_size` long and the next one starts `chunk_overlap` characters before its end.
   */
  lemma {:induction false} WindowsOverlapExactly(n: nat, chunkSize: int, chunkOverlap: int, start: nat)
    requires 0 <= chunkOverlap < chunkSize
    ensures OverlapExactly(Windows(n, chunkSize, chunkOverlap, start), chunkSize, chunkOverlap)
    decreases n - start
  {
    if start < n {
      var end := Min(start + chunkSize, n);
      if end < n {
        var next := end - chunkOverlap;
        WindowsOverlapExactly(n, chunkSize, chunkOverlap, next);
        var ws := Windows(n, chunkSize, chunkOverlap, start);
        var ws' := Windows(n, chunkSize, chunkOverlap, next);
        assert ws == [Window(start, end)] + ws';
        forall k | 0 <= k < |ws| - 1
          ensures ws[k].end - ws[k].start == chunkSize && ws[k + 1].start == ws[k].end - chunkOverlap
        {
          if k > 0 {
            assert ws[k] == ws'[k - 1] && ws[k + 1] == ws'[k];
          }
        }
      }
    }
  }

  /** For `0 <= chunk_overlap` every character of the text lies in some window. */
  lemma {:induction false} WindowsCover(n: nat, chunkSize: int, chunkOverlap: int, start: nat, i: nat)
    requires 0 <= chunkOverlap < chunkSize && start <= i < n
    ensures Covered(Windows(n, chunkSize, chunkOverlap, start), i)
    decreases n - start
  {
    var ws := Windows(n, chunkSize, chunkOverlap, start);
    var end := Min(start + chunkSize, n);
    assert ws[0] == Window(start, end);
    if i < end {
      assert ws[0].start <= i < ws[0].end;
    } else {
      var next := end - chunkOverlap;
      WindowsCover(n, chunkSize, chunkOverlap, next, i);
      var ws' := Windows(n, chunkSize, chunkOverlap, next);
      assert ws == [Window(start, end)] + ws';
      var k :| 0 <= k < |ws'| && ws'[k].start <= i < ws'[k].end;
      assert ws[k + 1] == ws'[k];
    }
  }

  /** The corrected loop runs at most ceil((n - start) / (chunk_size - chunk_overlap)) iterations. */
  lemma {:induction false} WindowCountBound(n: nat, chunkSize: int, chunkOverlap: int, start: nat)
    requires 0 <= chunkOverlap < chunkSize && start < n
    ensures (|Windows(n, chunkSize, chunkOverlap, start)| - 1) * (chunkSize - chunkOverlap) < n - start
    decreases n - start
  {
    var end := Min(start + chunkSize, n);
    if end < n {
      var next := end - chunkOverlap;
      var step := chunkSize - chunkOverlap;
      WindowCountBound(n, chunkSize, chunkOverlap, next);
      var m := |Windows(n, chunkSize, chunkOverlap, next)|;
      assert |Windows(n, chunkSize, chunkOverlap, start)| == m + 1;
      assert next == start + step;
      MulStep(m, step);
    }
  }

  lemma MulStep(m: int, step: int)
    ensures (m + 1 - 1) * step == (m - 1) * step + step
  {
  }

  /** The example used for the documented behaviour: "ABCDEFGHIJ", 4, 1 gives "ABCD", "DEFG", "GHIJ" and stops. */
  lemma CorrectedOverlapExample()
    ensures Corrected("ABCDEFGHIJ", 4, 1) == Success(["ABCD", "DEFG", "GHIJ"])
  {
    var text := "ABCDEFGHIJ";
    assert text[0..4] == "ABCD";
    assert text[3..7] == "DEFG";
    assert text[6..10] == "GHIJ";
    StripKeepsTrimmed(text[0..4]);
    StripKeepsTrimmed(text[3..7]);
    StripKeepsTrimmed(text[6..10]);
    var ws := [Window(0, 4), Window(3, 7), Window(6, 10)];
    assert Windows(10, 4, 1, 6) == ws[2..];
    assert Windows(10, 4, 1, 3) == ws[1..];
    assert Windows(10, 4, 1, 0) == ws;
    assert Piece(text, ws[0]) == ["ABCD"];
    assert Piece(text, ws[1]) == ["DEFG"];
    assert Piece(text, ws[2]) == ["GHIJ"];
    assert ws[2..][1..] == [];
    ChunksOfCons(text, ws[2..]);
    assert ChunksOf(text, ws[2..]) == ["GHIJ"];
    ChunksOfCons(text, ws[1..]);
    assert ws[1..][1..] == ws[2..];
    assert ChunksOf(text, ws[1..]) == ["DEFG", "GHIJ"];
    ChunksOfCons(text, ws);
    assert ChunksOf(text, ws) == ["ABCD", "DEFG", "GHIJ"];
  }

  /** With overlap 0 no character is lost: "ABCDEFGHIJ", 4, 0 gives "ABCD", "EFGH", "IJ". */
  lemma CorrectedZeroOverlapExample()
    ensures Corrected("ABCDEFGHIJ", 4, 0) == Success(["ABCD", "EFGH", "IJ"])
  {
    var text := "ABCDEFGHIJ";
    assert text[0..4] == "ABCD";
    assert text[4..8] == "EFGH";
    assert text[8..10] == "IJ";
    StripKeepsTrimmed(text[0..4]);
    StripKeepsTrimmed(text[4..8]);
    StripKeepsTrimmed(text[8..10]);
    var ws := [Window(0, 4), Window(4, 8), Window(8, 10)];
    assert Windows(10, 4, 0, 8) == ws[2..];
    assert Windows(10, 4, 0, 4) == ws[1..];
    assert Windows(10, 4, 0, 0) == ws;
    assert Piece(text, ws[0]) == ["ABCD"];
    assert Piece(text, ws[1]) == ["EFGH"];
    assert Piece(text, ws[2]) == ["IJ"];
    assert ws[2..][1..] == [];
    ChunksOfCons(text, ws[2..]);
    assert ChunksOf(text, ws[2..]) == ["IJ"];
    ChunksOfCons(text, ws[1..]);
    assert ws[1..][1..] == ws[2..];
    assert ChunksOf(text, ws[1..]) == ["EFGH", "IJ"];
    ChunksOfCons(text, ws);
    assert ChunksOf(text, ws) == ["ABCD", "EFGH", "IJ"];
  }

  /** Every chunk of the corrected chunker is the non-empty strip of a window of at most `chunkSize` characters. */
  lemma CorrectedChunksFromWindows(text: string, chunkSize: int, chunkOverlap: int)
    requires Chunking.ValidParameters(chunkSize, chunkOverlap)
    ensures Chunking.AllFromWindows(text, chunkSize, Corrected(text, chunkSize, chunkOverlap).value)
    ensures |Corrected(text, chunkSize, chunkOverlap).value| <= |Windows(|text|, chunkSize, chunkOverlap, 0)|
  {
    var ws := Windows(|text|, chunkSize, chunkOverlap, 0);
    WindowsShape(|text|, chunkSize, chunkOverlap, 0);
    ChunksOfAreStrips(text, ws);
    forall c | c in ChunksOf(text, ws)
      ensures Chunking.FromWindow(text, chunkSize, c)
    {
      var k :| 0 <= k < |ws| && c == Strip(text[ws[k].start..ws[k].end]);
      assert ws[k] in ws;
    }
  }

  /**
   * With a negative overlap the loop as written never clamps and never bumps, and it exits
   * right after the window that reaches the end: it returns what the corrected chunker does.
   */
  lemma {:induction false} NegativeOverlapRunAgrees(text: string, chunkSize: int, chunkOverlap: int, c: Chunking.Cursor, fuel: nat)
    requires chunkSize > 0 && chunkOverlap < 0 && 0 <= c.start && fuel >= |text| - c.start
    ensures Chunking.Run(text, chunkSize, chunkOverlap, c, fuel)
      == Chunking.Finished(c.chunks + ChunksOf(text, Windows(|text|, chunkSize, chunkOverlap, c.start)))
    decreases |text| - c.start
  {
    if c.start >= |text| {
      assert c.chunks + [] == c.chunks;
    } else {
      var next := Chunking.Step(text, chunkSize, chunkOverlap, c);
      NegativeOverlapStepAgrees(text, chunkSize, chunkOverlap, c);
      NegativeOverlapRunAgrees(text, chunkSize, chunkOverlap, next, fuel - 1);
      Chunking.RunStep(text, chunkSize, chunkOverlap, c, fuel);
    }
  }

  /** With a negative overlap one iteration moves the cursor to `end - chunk_overlap`, past `end`. */
  lemma NegativeOverlapStep(text: string, chunkSize: int, chunkOverlap: int, c: Chunking.Cursor)
    requires chunkSize > 0 && chunkOverlap < 0 && 0 <= c.start < |text|
    ensures var end := Chunking.WindowEnd(|text|, chunkSize, c.start);
      Chunking.Step(text, chunkSize, chunkOverlap, c)
      == Chunking.Cursor(end - chunkOverlap, Chunking.Keep(c.chunks, Strip(text[c.start..end])))
    ensures Chunking.Step(text, chunkSize, chunkOverlap, c).start > Chunking.WindowEnd(|text|, chunkSize, c.start) > c.start
  {
  }

  /** One iteration of the loop as written moves the first corrected window's piece from the windows still to come to the chunks. */
  lemma NegativeOverlapStepAgrees(text: string, chunkSize: int, chunkOverlap: int, c: Chunking.Cursor)
    requires chunkSize > 0 && chunkOverlap < 0 && 0 <= c.start < |text|
    ensures var next := Chunking.Step(text, chunkSize, chunkOverlap, c);
      next.start > c.start &&
      next.chunks + ChunksOf(text, Windows(|text|, chunkSize, chunkOverlap, next.start))
      == c.chunks + ChunksOf(text, Windows(|text|, chunkSize, chunkOverlap, c.start))
  {
    var end := Chunking.WindowEnd(|text|, chunkSize, c.start);
    var next := Chunking.Step(text, chunkSize, chunkOverlap, c);
    NegativeOverlapStep(text, chunkSize, chunkOverlap, c);
    assert next.start == end - chunkOverlap;
    assert next.chunks == Chunking.Keep(c.chunks, Strip(text[c.start..end]));
    AccumulateWindow(text, chunkSize, chunkOverlap, c.start, c.chunks);
  }

  /**
   * With a negative overlap, appending the pieces of the windows from `start` is appending the
   * first window's piece, then the pieces of the windows from `end - chunk_overlap`.
   */
  lemma AccumulateWindow(text: string, chunkSize: int, chunkOverlap: int, start: nat, acc: seq<string>)
    requires chunkSize > 0 && chunkOverlap < 0 && start < |text|
    ensures var end := Chunking.WindowEnd(|text|, chunkSize, start);
      acc + ChunksOf(text, Windows(|text|, chunkSize, chunkOverlap, start))
      == Chunking.Keep(acc, Strip(text[start..end])) + ChunksOf(text, Windows(|text|, chunkSize, chunkOverlap, end - chunkOverlap))
  {
    var end := Chunking.WindowEnd(|text|, chunkSize, start);
    var rest := Windows(|text|, chunkSize, chunkOverlap, end - chunkOverlap);
    WindowsStep(|text|, chunkSize, chunkOverlap, start);
    if end == |text| {
      assert rest == [];
      assert Windows(|text|, chunkSize, chunkOverlap, start) == [Window(start, end)] + rest;
    }
    ChunksOfCons(text, Windows(|text|, chunkSize, chunkOverlap, start));
    KeepAppends(acc, Strip(text[start..end]));
    AppendAssoc(acc, Chunking.Keep([], Strip(text[start..end])), ChunksOf(text, rest));
  }

  /** For `chunk_overlap < 0` the loop as written terminates and agrees with the corrected chunker. */
  lemma NegativeOverlapAgrees(text: string, chunkSize: int, chunkOverlap: int, maxSteps: nat)
    requires chunkSize > 0 && chunkOverlap < 0 && maxSteps >= |text|
    ensures Chunking.Chunks(text, chunkSize, chunkOverlap, maxSteps) == Chunking.Finished(Corrected(text, chunkSize, chunkOverlap).value)
  {
    NegativeOverlapRunAgrees(text, chunkSize, chunkOverlap, Chunking.Cursor(0, []), maxSteps);
    assert [] + ChunksOf(text, Windows(|text|, chunkSize, chunkOverlap, 0)) == ChunksOf(text, Windows(|text|, chunkSize, chunkOverlap, 0));
  }

  /** The same input on the loop as written never returns, whatever the step budget. */
  lemma AsWrittenOverlapExampleDiverges(maxSteps: nat)
    ensures Chunking.Chunks("ABCDEFGHIJ", 4, 1, maxSteps).Suspended?
  {
    Chunking.PositiveOverlapNeverFinishes("ABCDEFGHIJ", 4, 1, maxSteps);
  }
}
