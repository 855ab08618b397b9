/** The sliding-window splitter `chunk_text` of the backend's indexing service. */
module Chunking {
  import opened PyText

  const ChunkSize: int := 1000
  const ChunkOverlap: int := 150

  function Min(a: int, b: int): int { if a <= b then a else b }
  function Max(a: int, b: int): int { if a >= b then a else b }

  /** The offsets one loop iteration slices, `cleaned[lo:hi]`. When the window
      size is not positive `hi` lies at or below `lo`, and may be negative,
      in which case Python counts it from the end of the text. */
  datatype Window = Window(lo: nat, hi: int)

  /** The windows the loop visits on a stripped text of length n, starting at
      offset `start`: each ends at min(start + size, n), the loop stops once a
      window reaches n, and otherwise resumes at max(end - overlap, start + 1). */
  function WindowsFrom(n: nat, start: nat, size: int, overlap: int): (ws: seq<Window>)
    ensures ws != [] <==> start < n
    ensures start < n ==> ws[0] == Window(start, Min(start + size, n))
    decreases n - start
  {
    if start >= n then []
    else
      var end := Min(start + size, n);
      if end == n then [Window(start, end)]
      else [Window(start, end)] + WindowsFrom(n, Max(end - overlap, start + 1), size, overlap)
  }

  /** The windows of `chunk_text(text, size, overlap)`, as offsets into the
      stripped text. */
  function ChunkWindows(text: string, size: int, overlap: int): seq<Window>
  {
    var cleaned := Strip(text);
    if cleaned == [] then [] else WindowsFrom(|cleaned|, 0, size, overlap)
  }

  /** `chunk_text(text, chunk_size, overlap)`: the stripped text sliced along
      its windows. Whitespace-only text, and only that, has no chunks. */
  function ChunkText(text: string, size: int, overlap: int): (chunks: seq<string>)
    ensures chunks == [] <==> AllSpace(text)
  {
    var cleaned := Strip(text);
    var ws := ChunkWindows(text, size, overlap);
    seq(|ws|, k requires 0 <= k < |ws| => Slice(cleaned, ws[k].lo, ws[k].hi))
  }

  /** `chunk_text` as written: strip, return no chunks for empty text, then
      run the slicing loop. */
  method ChunkTextLoop(text: string, size: int, overlap: int) returns (chunks: seq<string>)
    ensures chunks == ChunkText(text, size, overlap)
  {
    var cleaned := Strip(text);
    if cleaned == [] {
      return [];
    }
    chunks := SliceLoop(cleaned, size, overlap);
    SlicesOfWindows(cleaned, WindowsFrom(|cleaned|, 0, size, overlap));
  }

  /** The slices of `cleaned` along the windows, in window order. */
  function SlicesOf(cleaned: string, ws: seq<Window>): (r: seq<string>)
    ensures |r| == |ws|
  {
    if ws == [] then [] else SlicesOf(cleaned, ws[..|ws| - 1]) + [Slice(cleaned, ws[|ws| - 1].lo, ws[|ws| - 1].hi)]
  }

  lemma {:induction false} SlicesOfWindows(cleaned: string, ws: seq<Window>)
    ensures forall k :: 0 <= k < |ws| ==> SlicesOf(cleaned, ws)[k] == Slice(cleaned, ws[k].lo, ws[k].hi)
  {
    if ws != [] {
      SlicesOfWindows(cleaned, ws[..|ws| - 1]);
    }
  }

  /** The loop of `chunk_text`, appending one slice of the stripped text per
      iteration and stopping once a window reaches the end. */
  method SliceLoop(cleaned: string, size: int, overlap: int) returns (chunks: seq<string>)
    ensures chunks == SlicesOf(cleaned, WindowsFrom(|cleaned|, 0, size, overlap))
  {
    chunks := [];
    var start: nat := 0;
    var textLen := |cleaned|;
    ghost var done: seq<Window> := [];
    while start < textLen
      invariant WindowsFrom(textLen, 0, size, overlap) == done + WindowsFrom(textLen, start, size, overlap)
      invariant chunks == SlicesOf(cleaned, done)
      decreases textLen - start
    {
      var end := Min(start + size, textLen);
      SliceStep(textLen, size, overlap, done, start);
      SlicesAppend(cleaned, done, Window(start, end));
      chunks := chunks + [Slice(cleaned, start, end)];
      done := done + [Window(start, end)];
      if end == textLen {
        break;
      }
      start := Max(end - overlap, start + 1);
    }
    SliceExit(textLen, size, overlap, done, start);
  }

  /** Appending the slice of one more window extends the slices. */
  lemma SlicesAppend(cleaned: string, done: seq<Window>, w: Window)
    ensures SlicesOf(cleaned, done + [w]) == SlicesOf(cleaned, done) + [Slice(cleaned, w.lo, w.hi)]
  {
    var next := done + [w];
    assert next[..|next| - 1] == done;
  }

  /** One turn of the loop keeps its invariant: the windows visited so far
      followed by those still to come are all the windows. */
  lemma SliceStep(n: nat, size: int, overlap: int, done: seq<Window>, start: nat)
    requires start < n
    requires WindowsFrom(n, 0, size, overlap) == done + WindowsFrom(n, start, size, overlap)
    ensures var end := Min(start + size, n);
      && (end == n ==> WindowsFrom(n, 0, size, overlap) == done + [Window(start, end)])
      && (end != n ==> WindowsFrom(n, 0, size, overlap) ==
                       done + [Window(start, end)] + WindowsFrom(n, Max(end - overlap, start + 1), size, overlap))
  {
    var end := Min(start + size, n);
    WindowsStep(n, start, size, overlap);
    if end != n {
      var rest := WindowsFrom(n, Max(end - overlap, start + 1), size, overlap);
      assert done + ([Window(start, end)] + rest) == done + [Window(start, end)] + rest;
    }
  }

  /** When the loop ends, every window has been visited. */
  lemma SliceExit(n: nat, size: int, overlap: int, done: seq<Window>, start: nat)
    requires start >= n ==> WindowsFrom(n, 0, size, overlap) == done + WindowsFrom(n, start, size, overlap)
    requires start < n ==> WindowsFrom(n, 0, size, overlap) == done
    ensures WindowsFrom(n, 0, size, overlap) == done
  {
    if start >= n {
      assert done + [] == done;
    }
  }

  /** One turn of the loop: the window at `start`, then the windows from the
      next start unless this window reached the end. */
  lemma WindowsStep(n: nat, start: nat, size: int, overlap: int)
    requires start < n
    ensures var end := Min(start + size, n);
      WindowsFrom(n, start, size, overlap) ==
        [Window(start, end)] + (if end == n then [] else WindowsFrom(n, Max(end - overlap, start + 1), size, overlap))
  {
  }

  /** Window start offsets strictly increase. */
  predicate StartsIncrease(ws: seq<Window>) {
    forall k :: 0 <= k < |ws| - 1 ==> ws[k].lo < ws[k + 1].lo
  }

  /** Every window is non-empty, inside [0, n) and at most `size` long. */
  predicate WellSized(ws: seq<Window>, n: nat, size: int) {
    forall k :: 0 <= k < |ws| ==> ws[k].lo < ws[k].hi <= n && ws[k].hi - ws[k].lo <= size
  }

  /** Offset p lies inside some window. */
  predicate Covered(ws: seq<Window>, p: int) {
    exists k :: 0 <= k < |ws| && ws[k].lo <= p < ws[k].hi
  }

  /** Offsets strictly increase from `start`, so the loop terminates whatever
      the overlap, even one at least as large as the window. */
  lemma {:induction false} WindowStartsIncrease(n: nat, start: nat, size: int, overlap: int)
    ensures start < n <==> WindowsFrom(n, start, size, overlap) != []
    ensures start < n ==> WindowsFrom(n, start, size, overlap)[0].lo == start
    ensures forall w :: w in WindowsFrom(n, start, size, overlap) ==> start <= w.lo < n
    ensures StartsIncrease(WindowsFrom(n, start, size, overlap))
    decreases n - start
  {
    if start < n {
      var end := Min(start + size, n);
      if end != n {
        var next := Max(end - overlap, start + 1);
        WindowStartsIncrease(n, next, size, overlap);
        var ws, rest := WindowsFrom(n, start, size, overlap), WindowsFrom(n, next, size, overlap);
        assert ws == [Window(start, end)] + rest;
        forall k | 0 <= k < |ws| - 1
          ensures ws[k].lo < ws[k + 1].lo
        {
          assert ws[k + 1] == rest[k];
          if k > 0 {
            assert ws[k] == rest[k - 1];
          }
        }
      }
    }
  }

  /** With a positive window size every window is non-empty, at most `size`
      long and inside the text. */
  lemma {:induction false} WindowBounds(n: nat, start: nat, size: int, overlap: int)
    requires size >= 1
    ensures WellSized(WindowsFrom(n, start, size, overlap), n, size)
    decreases n - start
  {
    if start < n {
      var end := Min(start + size, n);
      if end != n {
        var next := Max(end - overlap, start + 1);
        WindowBounds(n, next, size, overlap);
        var ws, rest := WindowsFrom(n, start, size, overlap), WindowsFrom(n, next, size, overlap);
        assert ws == [Window(start, end)] + rest;
        forall k | 1 <= k < |ws|
          ensures ws[k].lo < ws[k].hi <= n && ws[k].hi - ws[k].lo <= size
        {
          assert ws[k] == rest[k - 1];
        }
      }
    }
  }

  /** With a positive size and a non-negative overlap the last window ends at
      the end of the text. A negative overlap can jump past the end instead:
      see `NegativeOverlapStopsShort`. */
  lemma {:induction false} WindowsReachEnd(n: nat, start: nat, size: int, overlap: int)
    requires size >= 1 && overlap >= 0
    ensures WindowsFrom(n, start, size, overlap) != [] ==>
      WindowsFrom(n, start, size, overlap)[|WindowsFrom(n, start, size, overlap)| - 1].hi == n
    decreases n - start
  {
    if start < n {
      var end := Min(start + size, n);
      if end != n {
        var next := Max(end - overlap, start + 1);
        WindowsReachEnd(n, next, size, overlap);
        WindowStartsIncrease(n, next, size, overlap);
        var ws, rest := WindowsFrom(n, start, size, overlap), WindowsFrom(n, next, size, overlap);
        assert ws == [Window(start, end)] + rest;
        assert ws[|ws| - 1] == rest[|rest| - 1];
      }
    }
  }

  /** Every window ends at min(lo + size, n), and a window that is not the
      last one ends before n. */
  lemma {:induction false} WindowShape(n: nat, start: nat, size: int, overlap: int, k: nat)
    requires k < |WindowsFrom(n, start, size, overlap)|
    ensures WindowsFrom(n, start, size, overlap)[k].hi == Min(WindowsFrom(n, start, size, overlap)[k].lo + size, n)
    ensures k < |WindowsFrom(n, start, size, overlap)| - 1 ==> WindowsFrom(n, start, size, overlap)[k].hi < n
    decreases n - start
  {
    var end := Min(start + size, n);
    if k > 0 {
      var next := Max(end - overlap, start + 1);
      WindowShape(n, next, size, overlap, k - 1);
      assert WindowsFrom(n, start, size, overlap) == [Window(start, end)] + WindowsFrom(n, next, size, overlap);
    }
  }

  /** With 0 <= overlap < size, the next window starts exactly `overlap`
      characters before the previous one ended. */
  lemma {:induction false} WindowOverlap(n: nat, start: nat, size: int, overlap: int, k: nat)
    requires 0 <= overlap < size
    requires k + 1 < |WindowsFrom(n, start, size, overlap)|
    ensures WindowsFrom(n, start, size, overlap)[k + 1].lo == WindowsFrom(n, start, size, overlap)[k].hi - overlap
    decreases n - start
  {
    var end := Min(start + size, n);
    var next := Max(end - overlap, start + 1);
    assert WindowsFrom(n, start, size, overlap) == [Window(start, end)] + WindowsFrom(n, next, size, overlap);
    if k > 0 {
      WindowOverlap(n, next, size, overlap, k - 1);
    } else {
      WindowStartsIncrease(n, next, size, overlap);
    }
  }

  /** With a positive size and a non-negative overlap the windows leave no gap:
      every offset from `start` up to n lies in some window. */
  lemma {:induction false} WindowCoverage(n: nat, start: nat, size: int, overlap: int, p: nat)
    requires size >= 1 && overlap >= 0
    requires start <= p < n
    ensures Covered(WindowsFrom(n, start, size, overlap), p)
    decreases n - start
  {
    var ws := WindowsFrom(n, start, size, overlap);
    var end := Min(start + size, n);
    if p < end {
      assert ws[0].lo <= p < ws[0].hi;
    } else {
      var next := Max(end - overlap, start + 1);
      WindowCoverage(n, next, size, overlap, p);
      var rest := WindowsFrom(n, next, size, overlap);
      var k :| 0 <= k < |rest| && rest[k].lo <= p < rest[k].hi;
      assert ws == [Window(start, end)] + rest;
      assert ws[k + 1] == rest[k];
    }
  }

  /** Chunk k is the slice of the stripped text that window k names. */
  lemma ChunkIsSlice(text: string, size: int, overlap: int, k: nat)
    requires k < |ChunkWindows(text, size, overlap)|
    ensures |ChunkText(text, size, overlap)| == |ChunkWindows(text, size, overlap)|
    ensures ChunkText(text, size, overlap)[k]
         == Slice(Strip(text), ChunkWindows(text, size, overlap)[k].lo, ChunkWindows(text, size, overlap)[k].hi)
  {
  }

  /** With a positive window size each chunk is the contiguous slice of the
      stripped text its window names, 1 to `size` characters long; the first
      window starts at 0 and, when the overlap is not negative, the last one
      ends at the end of the stripped text. */
  lemma ChunkBounds(text: string, size: int, overlap: int)
    requires size >= 1
    ensures |ChunkText(text, size, overlap)| == |ChunkWindows(text, size, overlap)|
    ensures WellSized(ChunkWindows(text, size, overlap), |Strip(text)|, size)
    ensures forall k :: 0 <= k < |ChunkWindows(text, size, overlap)| ==>
      ChunkText(text, size, overlap)[k]
        == Strip(text)[ChunkWindows(text, size, overlap)[k].lo..ChunkWindows(text, size, overlap)[k].hi]
    ensures forall chunk :: chunk in ChunkText(text, size, overlap) ==> 1 <= |chunk| <= size
    ensures ChunkText(text, size, overlap) != [] ==> ChunkWindows(text, size, overlap)[0].lo == 0
    ensures ChunkText(text, size, overlap) != [] && overlap >= 0 ==>
      ChunkWindows(text, size, overlap)[|ChunkWindows(text, size, overlap)| - 1].hi == |Strip(text)|
  {
    var cleaned := Strip(text);
    var ws := ChunkWindows(text, size, overlap);
    var chunks := ChunkText(text, size, overlap);
    if cleaned != [] {
      WindowBounds(|cleaned|, 0, size, overlap);
      WindowStartsIncrease(|cleaned|, 0, size, overlap);
      if overlap >= 0 {
        WindowsReachEnd(|cleaned|, 0, size, overlap);
      }
      forall k | 0 <= k < |ws|
        ensures chunks[k] == cleaned[ws[k].lo..ws[k].hi]
      {
        ChunkIsSlice(text, size, overlap, k);
      }
    }
  }

  /** Chunk start offsets strictly increase, for every size and overlap. */
  lemma ChunkStartsIncrease(text: string, size: int, overlap: int)
    ensures StartsIncrease(ChunkWindows(text, size, overlap))
  {
    var cleaned := Strip(text);
    if cleaned != [] {
      WindowStartsIncrease(|cleaned|, 0, size, overlap);
    }
  }

  /** Chunk k and chunk k + 1 share exactly `overlap` characters: the latter
      starts `overlap` characters before the former ends, and the former's
      last `overlap` characters are the latter's first ones. */
  predicate SharesOverlap(chunks: seq<string>, ws: seq<Window>, k: nat, overlap: nat)
  {
    && k + 1 < |chunks| && k + 1 < |ws|
    && ws[k + 1].lo == ws[k].hi - overlap
    && overlap <= |chunks[k]| && overlap <= |chunks[k + 1]|
    && chunks[k][|chunks[k]| - overlap..] == chunks[k + 1][..overlap]
  }

  /** With 0 <= overlap < size, chunk k shares exactly `overlap` characters
      with chunk k + 1. */
  lemma ChunkOverlapAt(text: string, size: int, overlap: int, k: nat)
    requires 0 <= overlap < size
    requires k + 1 < |ChunkText(text, size, overlap)|
    ensures SharesOverlap(ChunkText(text, size, overlap), ChunkWindows(text, size, overlap), k, overlap)
  {
    var cleaned := Strip(text);
    var ws := ChunkWindows(text, size, overlap);
    var chunks := ChunkText(text, size, overlap);
    ChunkIsSlice(text, size, overlap, k);
    ChunkIsSlice(text, size, overlap, k + 1);
    WindowBounds(|cleaned|, 0, size, overlap);
    WindowOverlap(|cleaned|, 0, size, overlap, k);
    WindowShape(|cleaned|, 0, size, overlap, k);
    WindowShape(|cleaned|, 0, size, overlap, k + 1);
    assert ws[k].lo < ws[k].hi <= |cleaned|;
    assert ws[k + 1].lo < ws[k + 1].hi <= |cleaned|;
    assert chunks[k] == cleaned[ws[k].lo..ws[k].hi];
    assert chunks[k + 1] == cleaned[ws[k + 1].lo..ws[k + 1].hi];
    SliceOverlap(cleaned, ws[k], ws[k + 1], overlap);
  }

  /** With 0 <= overlap < size, every chunk but the last shares exactly
      `overlap` characters with its successor. */
  lemma ChunkOverlapShared(text: string, size: int, overlap: int)
    requires 0 <= overlap < size
    ensures forall k :: 0 <= k < |ChunkText(text, size, overlap)| - 1 ==>
      SharesOverlap(ChunkText(text, size, overlap), ChunkWindows(text, size, overlap), k, overlap)
  {
    forall k | 0 <= k < |ChunkText(text, size, overlap)| - 1
      ensures SharesOverlap(ChunkText(text, size, overlap), ChunkWindows(text, size, overlap), k, overlap)
    {
      ChunkOverlapAt(text, size, overlap, k);
    }
  }

  /** Two slices of `c` whose windows overlap by `overlap` characters agree on
      those characters. */
  lemma SliceOverlap(c: string, a: Window, b: Window, overlap: nat)
    requires a.lo < a.hi <= |c| && b.lo < b.hi <= |c|
    requires b.lo == a.hi - overlap && a.lo <= b.lo && b.lo + overlap <= b.hi
    ensures c[a.lo..a.hi][a.hi - a.lo - overlap..] == c[b.lo..b.hi][..overlap]
  {
    assert c[a.lo..a.hi][a.hi - a.lo - overlap..] == c[b.lo..a.hi];
    assert c[b.lo..b.hi][..overlap] == c[b.lo..a.hi];
  }

  /** With a positive size and a non-negative overlap, every character of the
      stripped text lies in at least one chunk, at the matching position. */
  lemma ChunkCoverage(text: string, size: int, overlap: int, p: nat)
    requires size >= 1 && overlap >= 0
    requires p < |Strip(text)|
    ensures exists k ::
      && 0 <= k < |ChunkText(text, size, overlap)|
      && ChunkWindows(text, size, overlap)[k].lo <= p < ChunkWindows(text, size, overlap)[k].hi
      && ChunkText(text, size, overlap)[k][p - ChunkWindows(text, size, overlap)[k].lo] == Strip(text)[p]
  {
    var cleaned := Strip(text);
    var ws := ChunkWindows(text, size, overlap);
    var chunks := ChunkText(text, size, overlap);
    ChunkBounds(text, size, overlap);
    WindowCoverage(|cleaned|, 0, size, overlap, p);
    var k :| 0 <= k < |ws| && ws[k].lo <= p < ws[k].hi;
    assert chunks[k] == cleaned[ws[k].lo..ws[k].hi];
    assert chunks[k][p - ws[k].lo] == cleaned[p];
  }

  /** With the defaults the index uses (1000 and 150): every chunk has 1 to
      1000 characters, the chunks cover the whole stripped text, and each chunk
      but the last shares its final 150 characters with the next one. */
  lemma DefaultChunking(text: string)
    ensures forall chunk :: chunk in ChunkText(text, ChunkSize, ChunkOverlap) ==> 1 <= |chunk| <= 1000
    ensures ChunkText(text, ChunkSize, ChunkOverlap) != [] ==>
      && ChunkWindows(text, ChunkSize, ChunkOverlap)[0].lo == 0
      && ChunkWindows(text, ChunkSize, ChunkOverlap)[|ChunkWindows(text, ChunkSize, ChunkOverlap)| - 1].hi == |Strip(text)|
    ensures forall k :: 0 <= k < |ChunkText(text, ChunkSize, ChunkOverlap)| - 1 ==>
      SharesOverlap(ChunkText(text, ChunkSize, ChunkOverlap), ChunkWindows(text, ChunkSize, ChunkOverlap), k, 150)
  {
    ChunkBounds(text, ChunkSize, ChunkOverlap);
    ChunkOverlapShared(text, ChunkSize, ChunkOverlap);
  }

  /** A negative overlap makes the loop resume past the end of the window, so
      the windows can leave a gap and stop before the end of the text. */
  lemma NegativeOverlapStopsShort()
    ensures ChunkWindows("abcdefghij", 5, -6) == [Window(0, 5)]
    ensures ChunkText("abcdefghij", 5, -6) == ["abcde"]
  {
    var s := "abcdefghij";
    assert !IsSpace(s[0]) && !IsSpace(s[9]);
    StripUnchanged(s);
    assert WindowsFrom(10, 11, 5, -6) == [];
    assert ChunkWindows(s, 5, -6) == [Window(0, 5)];
    assert Slice(s, 0, 5) == "abcde";
    var chunks := ChunkText(s, 5, -6);
    assert |chunks| == 1 && chunks[0] == Slice(s, 0, 5);
  }
}
