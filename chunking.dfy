/**
  * `DocumentProcessor.chunk_text`: the sliding-window splitter that cuts a
  * document's text into overlapping chunks, preferring to end each window just
  * after a sentence end or a newline found near its nominal end.
  *
  * `ChunkText` is the loop itself; `Windows` and `Chunks` describe what it
  * produces, and the lemmas state where the windows fall.
  */
module Chunking {
  import opened Wrappers
  import opened Text

  /** `text[i] in '.!?\n'`: a character after which a window may end. */
  predicate IsBoundary(c: char) {
    c == '.' || c == '!' || c == '?' || c == '\n'
  }

  /** How far below the nominal end the boundary scan reaches. */
  const LookBack: nat := 200

  /** The `CHUNK_SIZE` / `CHUNK_OVERLAP` defaults. */
  const DefaultChunkSize: nat := 1000
  const DefaultChunkOverlap: nat := 200

  /** Settings under which every step moves the window start forward, so that
      the loop ends on every text: a positive chunk size, and an overlap below
      the shortest window the scan can produce. For a chunk size of at least
      200 this is `chunkOverlap + 198 < chunkSize`; the defaults satisfy it,
      and the bound is tight (see `OverlapAtBoundStalls`). */
  predicate Advances(chunkSize: int, chunkOverlap: int) {
    0 < chunkSize && chunkOverlap < Min(chunkSize, Max(chunkSize - (LookBack - 2), 2))
  }

  /** One pass of the loop: the window `text[start:end]`. */
  datatype Window = Window(start: nat, end: nat)

  /** The backward scan `for i in range(hi, lo, -1)`: the highest index in
      `(lo, hi]` holding a boundary character, if any. */
  function LastBoundary(text: string, hi: int, lo: nat): (r: Option<nat>)
    requires hi < |text|
    ensures r.Some? ==> lo < r.value <= hi
    decreases hi - lo
  {
    if hi <= lo then None
    else if IsBoundary(text[hi]) then Some(hi)
    else LastBoundary(text, hi - 1, lo)
  }

  /** The scan finds the highest boundary character in `(lo, hi]`, and finds
      nothing only when there is none. */
  lemma {:induction false} LastBoundarySpec(text: string, hi: int, lo: nat)
    requires hi < |text|
    ensures var r := LastBoundary(text, hi, lo);
      && (r.Some? ==> IsBoundary(text[r.value]) && forall k :: r.value < k <= hi ==> !IsBoundary(text[k]))
      && (r.None? ==> forall k :: lo < k <= hi ==> !IsBoundary(text[k]))
    decreases hi - lo
  {
    if hi > lo && !IsBoundary(text[hi]) {
      LastBoundarySpec(text, hi - 1, lo);
    }
  }

  /** Lowest index the scan of the window starting at `start` may look at, exclusive. */
  function ScanFloor(start: nat, chunkSize: int): nat {
    Max(start + chunkSize - LookBack, start)
  }

  /** Where the window starting at `start` ends: the nominal end
      `start + chunkSize`, or, when that lies inside the text, just after the
      highest boundary character in `(ScanFloor, start + chunkSize]`. */
  function WindowEnd(text: string, start: nat, chunkSize: int): (end: int)
    ensures end <= start + chunkSize + 1
    ensures start + chunkSize < |text| ==> end <= |text|
    ensures end >= Min(start + chunkSize, ScanFloor(start, chunkSize) + 2)
  {
    var nominal := start + chunkSize;
    if nominal < |text| then
      match LastBoundary(text, nominal, ScanFloor(start, chunkSize))
      case Some(i) => i + 1
      case None => nominal
    else nominal
  }

  /** A window whose nominal end reaches the text end is not shortened;
      otherwise it ends right after the highest sentence end or newline in
      `(ScanFloor, start + chunkSize]`, or at the nominal end if there is none.
      So a window holds at most `chunkSize + 1` characters. */
  lemma {:induction false} WindowEndSpec(text: string, start: nat, chunkSize: int)
    ensures var end := WindowEnd(text, start, chunkSize);
      && (start + chunkSize >= |text| ==> end == start + chunkSize)
      && (start + chunkSize < |text| ==>
          || (end == start + chunkSize
              && forall k :: ScanFloor(start, chunkSize) < k <= start + chunkSize ==> !IsBoundary(text[k]))
          || (ScanFloor(start, chunkSize) + 1 < end <= start + chunkSize + 1
              && IsBoundary(text[end - 1])
              && forall k :: end - 1 < k <= start + chunkSize ==> !IsBoundary(text[k])))
  {
    if start + chunkSize < |text| {
      LastBoundarySpec(text, start + chunkSize, ScanFloor(start, chunkSize));
    }
  }

  /** `start = end - chunk_overlap`: where the window after the one starting
      at `start` begins. */
  function NextStart(text: string, start: nat, chunkSize: int, chunkOverlap: int): int {
    WindowEnd(text, start, chunkSize) - chunkOverlap
  }

  /** Under `Advances`, the next window starts strictly after this one. */
  lemma {:induction false} NextStartAdvances(text: string, start: nat, chunkSize: int, chunkOverlap: int)
    requires Advances(chunkSize, chunkOverlap)
    ensures NextStart(text, start, chunkSize, chunkOverlap) > start
  {
  }

  /** The windows the loop visits from `start` on, in order. */
  function WindowsFrom(text: string, chunkSize: int, chunkOverlap: int, start: nat): (ws: seq<Window>)
    requires Advances(chunkSize, chunkOverlap)
    decreases |text| - start
  {
    if start >= |text| then []
    else
      var end := WindowEnd(text, start, chunkSize);
      NextStartAdvances(text, start, chunkSize, chunkOverlap);
      [Window(start, end)]
        + WindowsFrom(text, chunkSize, chunkOverlap, NextStart(text, start, chunkSize, chunkOverlap))
  }

  /** The windows of the whole text; the first one starts at 0. */
  function Windows(text: string, chunkSize: int, chunkOverlap: int): seq<Window>
    requires Advances(chunkSize, chunkOverlap)
  {
    WindowsFrom(text, chunkSize, chunkOverlap, 0)
  }

  /** `text[w.start:w.end].strip()`. */
  function WindowText(text: string, w: Window): string {
    Strip(PySlice(text, w.start, w.end))
  }

  /** The stripped windows, dropping those that strip to nothing. */
  function Collect(text: string, ws: seq<Window>): seq<string> {
    if ws == [] then []
    else
      var chunk := WindowText(text, ws[0]);
      (if chunk != [] then [chunk] else []) + Collect(text, ws[1..])
  }

  /** The chunks the loop appends from window start `start` on. */
  function ChunksFrom(text: string, chunkSize: int, chunkOverlap: int, start: nat): seq<string>
    requires Advances(chunkSize, chunkOverlap)
    decreases |text| - start
  {
    if start >= |text| then []
    else
      var end := WindowEnd(text, start, chunkSize);
      var chunk := WindowText(text, Window(start, end));
      NextStartAdvances(text, start, chunkSize, chunkOverlap);
      (if chunk != [] then [chunk] else [])
        + ChunksFrom(text, chunkSize, chunkOverlap, NextStart(text, start, chunkSize, chunkOverlap))
  }

  /** What `chunk_text(text)` returns. */
  function Chunks(text: string, chunkSize: int, chunkOverlap: int): seq<string>
    requires Advances(chunkSize, chunkOverlap)
  {
    if text == [] then [] else ChunksFrom(text, chunkSize, chunkOverlap, 0)
  }

  /** The chunks are the windows' stripped texts, in window order, leaving
      out those that strip to nothing. */
  lemma {:induction false} ChunksFromWindows(text: string, chunkSize: int, chunkOverlap: int, start: nat)
    requires Advances(chunkSize, chunkOverlap)
    ensures ChunksFrom(text, chunkSize, chunkOverlap, start)
            == Collect(text, WindowsFrom(text, chunkSize, chunkOverlap, start))
    decreases |text| - start
  {
    if start < |text| {
      NextStartAdvances(text, start, chunkSize, chunkOverlap);
      var end := WindowEnd(text, start, chunkSize);
      var next := NextStart(text, start, chunkSize, chunkOverlap);
      ChunksFromStep(text, chunkSize, chunkOverlap, start);
      WindowsFromStep(text, chunkSize, chunkOverlap, start);
      ChunksFromWindows(text, chunkSize, chunkOverlap, next);
      var ws := WindowsFrom(text, chunkSize, chunkOverlap, start);
      assert ws[0] == Window(start, end);
      assert ws[1..] == WindowsFrom(text, chunkSize, chunkOverlap, next);
    }
  }

  /** `WindowsFrom` at a start inside the text: this window, followed by the
      windows from the next start. */
  lemma {:induction false} WindowsFromStep(text: string, chunkSize: int, chunkOverlap: int, start: nat)
    requires Advances(chunkSize, chunkOverlap) && start < |text|
    ensures NextStart(text, start, chunkSize, chunkOverlap) > start
    ensures WindowsFrom(text, chunkSize, chunkOverlap, start)
            == [Window(start, WindowEnd(text, start, chunkSize))]
               + WindowsFrom(text, chunkSize, chunkOverlap, NextStart(text, start, chunkSize, chunkOverlap))
  {
    NextStartAdvances(text, start, chunkSize, chunkOverlap);
  }

  /** Where the windows from `start` on fall: the first starts at `start`,
      each next one starts `chunkOverlap` before the end of the previous one,
      every start lies inside the text, every end is the one `WindowEnd`
      describes, and the sequence stops exactly when the next start would be at
      or past the end of the text. */
  lemma {:induction false} WindowsFromPlacement(text: string, chunkSize: int, chunkOverlap: int, start: nat)
    requires Advances(chunkSize, chunkOverlap)
    ensures var ws := WindowsFrom(text, chunkSize, chunkOverlap, start);
      && (ws == [] <==> start >= |text|)
      && (ws != [] ==> ws[0].start == start && ws[|ws| - 1].end - chunkOverlap >= |text|)
      && (forall k :: 0 <= k < |ws| ==>
            start <= ws[k].start < |text| && ws[k].end == WindowEnd(text, ws[k].start, chunkSize))
      && (forall k :: 0 <= k < |ws| - 1 ==> ws[k + 1].start == ws[k].end - chunkOverlap)
    decreases |text| - start
  {
    if start < |text| {
      NextStartAdvances(text, start, chunkSize, chunkOverlap);
      var end := WindowEnd(text, start, chunkSize);
      var next := NextStart(text, start, chunkSize, chunkOverlap);
      var rest := WindowsFrom(text, chunkSize, chunkOverlap, next);
      WindowsFromPlacement(text, chunkSize, chunkOverlap, next);
      var ws := WindowsFrom(text, chunkSize, chunkOverlap, start);
      assert ws == [Window(start, end)] + rest;
      assert forall k :: 0 < k < |ws| ==> ws[k] == rest[k - 1];
    }
  }

  /** The windows of a whole text: none for the empty text; otherwise the
      first starts at 0, each next one starts at the previous end minus the
      overlap, starts strictly increase and stay inside the text, no window
      holds more than `chunkSize + 1` characters, a window that had to be
      scanned ends inside the text, and the last one is followed by a start at
      or past the end of the text. */
  lemma {:induction false} WindowsPlacement(text: string, chunkSize: int, chunkOverlap: int)
    requires Advances(chunkSize, chunkOverlap)
    ensures var ws := Windows(text, chunkSize, chunkOverlap);
      && (ws == [] <==> text == [])
      && (ws != [] ==> ws[0].start == 0 && ws[|ws| - 1].end - chunkOverlap >= |text|)
      && (forall k :: 0 <= k < |ws| - 1 ==>
            ws[k + 1].start == ws[k].end - chunkOverlap && ws[k].start < ws[k + 1].start)
      && (forall k :: 0 <= k < |ws| ==>
            && ws[k].start < |text|
            && ws[k].start < ws[k].end <= ws[k].start + chunkSize + 1
            && (ws[k].start + chunkSize < |text| ==> ws[k].end <= |text|))
  {
    var ws := Windows(text, chunkSize, chunkOverlap);
    WindowsFromPlacement(text, chunkSize, chunkOverlap, 0);
    forall k | 0 <= k < |ws|
      ensures ws[k].end - chunkOverlap > ws[k].start
    {
      NextStartAdvances(text, ws[k].start, chunkSize, chunkOverlap);
    }
  }

  /** Once a window reaches the end of the text, any window after it starts
      inside it and also reaches the end: its text is a suffix of the earlier
      window's text, so the trailing chunk repeats the tail of the previous one. */
  lemma {:induction false} TrailingWindowInside(text: string, chunkSize: int, chunkOverlap: int, k: nat)
    requires Advances(chunkSize, chunkOverlap)
    requires k + 1 < |Windows(text, chunkSize, chunkOverlap)|
    requires Windows(text, chunkSize, chunkOverlap)[k].end >= |text|
    ensures var ws := Windows(text, chunkSize, chunkOverlap);
      var w, v := ws[k], ws[k + 1];
      && w.start < v.start < |text| <= v.end
      && PySlice(text, v.start, v.end) == text[v.start..]
      && PySlice(text, w.start, w.end) == text[w.start..]
      && text[v.start..] == PySlice(text, w.start, w.end)[v.start - w.start..]
  {
    WindowsPlacement(text, chunkSize, chunkOverlap);
    WindowsFromPlacement(text, chunkSize, chunkOverlap, 0);
  }

  /** With the default settings a text of at most 800 characters is one window. */
  lemma {:induction false} DefaultsShortText(text: string)
    requires 0 < |text| <= DefaultChunkSize - DefaultChunkOverlap
    ensures Windows(text, DefaultChunkSize, DefaultChunkOverlap) == [Window(0, 1000)]
    ensures Chunks(text, DefaultChunkSize, DefaultChunkOverlap)
            == if Strip(text) != [] then [Strip(text)] else []
  {
    assert WindowsFrom(text, DefaultChunkSize, DefaultChunkOverlap, 800) == [];
    assert ChunksFrom(text, DefaultChunkSize, DefaultChunkOverlap, 800) == [];
    assert PySlice(text, 0, 1000) == text;
  }

  /** With the default settings a text of 801 to 1000 characters gives two
      windows: the whole text, then its tail from index 800 again. */
  lemma {:induction false} DefaultsRepeatedTail(text: string)
    requires DefaultChunkSize - DefaultChunkOverlap < |text| <= DefaultChunkSize
    ensures Windows(text, DefaultChunkSize, DefaultChunkOverlap) == [Window(0, 1000), Window(800, 1800)]
    ensures Chunks(text, DefaultChunkSize, DefaultChunkOverlap)
            == (if Strip(text) != [] then [Strip(text)] else [])
               + (if Strip(text[800..]) != [] then [Strip(text[800..])] else [])
  {
    var size, overlap := DefaultChunkSize, DefaultChunkOverlap;
    assert WindowEnd(text, 0, size) == 1000;
    assert WindowEnd(text, 800, size) == 1800;
    assert WindowsFrom(text, size, overlap, 1600) == [];
    assert WindowsFrom(text, size, overlap, 800) == [Window(800, 1800)];
    assert WindowText(text, Window(0, 1000)) == Strip(text) by {
      assert PySlice(text, 0, 1000) == text;
    }
    assert WindowText(text, Window(800, 1800)) == Strip(text[800..]);
    ChunksFromWindows(text, size, overlap, 0);
    var ws := [Window(0, 1000), Window(800, 1800)];
    assert ws[1..] == [Window(800, 1800)];
    assert Collect(text, ws[1..][1..]) == [];
  }

  /** The overlap bound of `Advances` cannot be relaxed: with a chunk size of
      at least 200 and an overlap of `chunkSize - 198` or more, a text whose
      only boundary near the nominal end sits at index `chunkSize - 199` sends
      the second window back to (or before) the first one's start, so the
      loop of `ChunkText` would not advance. */
  lemma {:induction false} OverlapAtBoundStalls(text: string, chunkSize: int, chunkOverlap: int)
    requires LookBack <= chunkSize < |text| && chunkSize - (LookBack - 2) <= chunkOverlap
    requires IsBoundary(text[chunkSize - (LookBack - 1)])
    requires forall k :: chunkSize - (LookBack - 1) < k <= chunkSize ==> !IsBoundary(text[k])
    ensures !Advances(chunkSize, chunkOverlap)
    ensures WindowEnd(text, 0, chunkSize) == chunkSize - (LookBack - 2)
    ensures WindowEnd(text, 0, chunkSize) - chunkOverlap <= 0
  {
    WindowEndSpec(text, 0, chunkSize);
  }

  /** A string collected from windows is non-empty and is the stripped text of
      one of them, and the stripped text of every window is collected unless
      it is empty. */
  lemma {:induction false} CollectMembers(text: string, ws: seq<Window>, c: string)
    ensures c in Collect(text, ws) <==> c != [] && exists w :: w in ws && WindowText(text, w) == c
    ensures |Collect(text, ws)| <= |ws|
  {
    if ws != [] {
      CollectMembers(text, ws[1..], c);
      assert forall w :: w in ws <==> w == ws[0] || w in ws[1..];
    }
  }

  /** `chunk_text` returns exactly the non-empty stripped window texts: each
      chunk is non-empty and equals `text[start:end].strip()` for one of the
      windows, there are no more chunks than windows, and the empty text has
      none. */
  lemma {:induction false} ChunksAreWindowTexts(text: string, chunkSize: int, chunkOverlap: int, c: string)
    requires Advances(chunkSize, chunkOverlap)
    ensures var cs := Chunks(text, chunkSize, chunkOverlap);
      && (text == [] ==> cs == [])
      && |cs| <= |Windows(text, chunkSize, chunkOverlap)|
      && (c in cs <==> c != [] && exists w :: w in Windows(text, chunkSize, chunkOverlap)
                                             && Strip(PySlice(text, w.start, w.end)) == c)
  {
    ChunksFromWindows(text, chunkSize, chunkOverlap, 0);
    CollectMembers(text, Windows(text, chunkSize, chunkOverlap), c);
  }

  /** One pass of the loop: appending this window's chunk to what was
      collected before leaves the same remainder to collect. */
  lemma {:induction false} ChunkStep(text: string, chunkSize: int, chunkOverlap: int, start: nat, end: int,
                  next: nat, before: seq<string>, after: seq<string>)
    requires Advances(chunkSize, chunkOverlap) && start < |text|
    requires end == WindowEnd(text, start, chunkSize) && next == NextStart(text, start, chunkSize, chunkOverlap)
    requires var chunk := Strip(PySlice(text, start, end));
      after == if chunk != [] then before + [chunk] else before
    ensures before + ChunksFrom(text, chunkSize, chunkOverlap, start)
            == after + ChunksFrom(text, chunkSize, chunkOverlap, next)
  {
    var chunk := Strip(PySlice(text, start, end));
    var piece := if chunk != [] then [chunk] else [];
    var rest := ChunksFrom(text, chunkSize, chunkOverlap, next);
    assert after == before + piece;
    ChunksFromStep(text, chunkSize, chunkOverlap, start);
    ConcatAssoc(before, piece, rest);
  }

  /** `ChunksFrom` at a start inside the text: this window's chunk, if any,
      followed by the chunks from the next start. */
  lemma {:induction false} ChunksFromStep(text: string, chunkSize: int, chunkOverlap: int, start: nat)
    requires Advances(chunkSize, chunkOverlap) && start < |text|
    ensures NextStart(text, start, chunkSize, chunkOverlap) > start
    ensures var chunk := WindowText(text, Window(start, WindowEnd(text, start, chunkSize)));
      ChunksFrom(text, chunkSize, chunkOverlap, start)
      == (if chunk != [] then [chunk] else [])
         + ChunksFrom(text, chunkSize, chunkOverlap, NextStart(text, start, chunkSize, chunkOverlap))
  {
    NextStartAdvances(text, start, chunkSize, chunkOverlap);
  }

  /** Lines 75-83 of the loop body: the nominal end of the window starting at
      `start`, pulled back by the backward scan for a boundary character when
      it lies inside the text. */
  method FindWindowEnd(text: string, start: nat, chunkSize: int) returns (end: int)
    requires 0 <= chunkSize
    ensures end == WindowEnd(text, start, chunkSize)
  {
    end := start + chunkSize;
    if end < |text| {
      var lo := ScanFloor(start, chunkSize);
      var i := end;
      while i > lo
        invariant lo <= i <= start + chunkSize
        invariant end == start + chunkSize
        invariant LastBoundary(text, i, lo) == LastBoundary(text, start + chunkSize, lo)
        decreases i
      {
        if IsBoundary(text[i]) {
          end := i + 1;
          break;
        }
        i := i - 1;
      }
    }
  }

  /** The splitter itself: windows advance by `end - chunkOverlap` until the
      next start falls at or past the end of the text. */
  method ChunkText(text: string, chunkSize: int, chunkOverlap: int) returns (chunks: seq<string>)
    requires Advances(chunkSize, chunkOverlap)
    ensures chunks == Chunks(text, chunkSize, chunkOverlap)
  {
    if |text| == 0 {
      return [];
    }
    chunks := [];
    var start: nat := 0;
    var textLength := |text|;
    ghost var all := Chunks(text, chunkSize, chunkOverlap);
    while start < textLength
      invariant chunks + ChunksFrom(text, chunkSize, chunkOverlap, start) == all
      decreases textLength - start
    {
      var end := FindWindowEnd(text, start, chunkSize);
      var chunk := Strip(PySlice(text, start, end));
      ghost var before := chunks;
      if chunk != [] {
        chunks := chunks + [chunk];
      }
      NextStartAdvances(text, start, chunkSize, chunkOverlap);
      var next: nat := end - chunkOverlap;
      ChunkStep(text, chunkSize, chunkOverlap, start, end, next, before, chunks);
      start := next;
      if start >= textLength {
        break;
      }
    }
  }
}
