/** Fixed-size chunking with overlap. What counts as white space is a parameter. */
module Chunker {
  import opened Wrappers

  datatype Window = Window(start: nat, end: nat)

  datatype Chunk = Chunk(index: nat, text: string, offset: nat)

  predicate IsBreak(c: char) {
    c == '.' || c == '!' || c == '?' || c == '\n'
  }

  function Minus(a: nat, b: nat): nat {
    if a >= b then a - b else 0
  }

  /** The last break in text[lo..hi]. */
  function LastBreak(text: string, lo: nat, hi: nat): (r: Option<nat>)
    requires hi <= |text|
    ensures r.Some? ==> lo <= r.value < hi && IsBreak(text[r.value])
    ensures forall i | lo <= i < hi && IsBreak(text[i]) :: r.Some? && i <= r.value
  {
    if hi <= lo then None
    else if IsBreak(text[hi - 1]) then Some(hi - 1)
    else LastBreak(text, lo, hi - 1)
  }

  /** Where the window that starts here ends: at its full size, or after a break in its last fifth. */
  function WindowEnd(text: string, start: nat, size: nat): (e: nat)
    requires start <= |text|
    ensures start <= e <= |text| && e <= start + size
  {
    var end := Min(start + size, |text|);
    if end == |text| then end
    else
      match LastBreak(text, Minus(end, size / 5), end)
      case Some(i) => i + 1
      case None => end
  }

  /** A window that does not reach the end of the text ends behind the last break of its last fifth, or is full. */
  lemma WindowEndsAtBreak(text: string, start: nat, size: nat)
    requires start <= |text|
    ensures start + size >= |text| ==> WindowEnd(text, start, size) == |text|
    ensures start + size < |text| ==>
              var e, full := WindowEnd(text, start, size), start + size;
              && (e == full || (full - size / 5 < e < full && text[e - 1] in ['.', '!', '?', '\n']))
              && forall i | full - size / 5 <= i < full && text[i] in ['.', '!', '?', '\n'] ::
                   i < e && text[e - 1] in ['.', '!', '?', '\n']
  {
  }

  function NextStart(text: string, start: nat, size: nat, overlap: nat): (next: nat)
    requires start <= |text|
    ensures next <= |text|
  {
    var e := WindowEnd(text, start, size);
    if e >= |text| then |text| else Minus(e, overlap)
  }

  // ---------------------------------------------------------------- when the loop ends

  predicate Progresses(size: nat, overlap: nat) {
    if size >= 5 then overlap <= size - size / 5 else overlap < size
  }

  lemma StepAdvances(text: string, start: nat, size: nat, overlap: nat)
    requires Progresses(size, overlap) && start < |text|
    ensures start < NextStart(text, start, size, overlap)
    ensures start < WindowEnd(text, start, size)
    ensures WindowEnd(text, start, size) < |text| ==>
              NextStart(text, start, size, overlap) + overlap == WindowEnd(text, start, size)
    ensures WindowEnd(text, start, size) < |text| ==> start + overlap < WindowEnd(text, start, size)
  {
  }

  /** A text of which the first window ends so early that the next one starts at the beginning again. */
  function Trap(size: nat): string {
    seq(size + 1, i => if i == size - size / 5 then '.' else 'x')
  }

  lemma TrapHolds(size: nat, overlap: nat)
    requires !Progresses(size, overlap)
    ensures NextStart(Trap(size), 0, size, overlap) == 0 < |Trap(size)|
  {
    var text := Trap(size);
    if size >= 5 {
      var r := LastBreak(text, Minus(size, size / 5), size);
      assert IsBreak(text[size - size / 5]);
      assert r == Some(size - size / 5);
    }
  }

  /**
   Every step of the loop advances, on every text, exactly if the sizes satisfy Progresses.
   Otherwise some text keeps the loop at its start for ever.
   */
  lemma AlwaysAdvancesIff(size: nat, overlap: nat)
    ensures Progresses(size, overlap) <==>
            forall text: string, start: nat | start < |text| :: start < NextStart(text, start, size, overlap)
  {
    if Progresses(size, overlap) {
      forall text: string, start: nat | start < |text| ensures start < NextStart(text, start, size, overlap) {
        StepAdvances(text, start, size, overlap);
      }
    } else {
      TrapHolds(size, overlap);
      assert 0 < |Trap(size)| && !(0 < NextStart(Trap(size), 0, size, overlap));
    }
  }

  /** From this start the loop ends after at most n windows. */
  predicate EndsWithin(text: string, start: nat, size: nat, overlap: nat, n: nat)
    requires start <= |text|
    decreases n
  {
    start == |text| || (n > 0 && EndsWithin(text, NextStart(text, start, size, overlap), size, overlap, n - 1))
  }

  ghost predicate Ends(text: string, size: nat, overlap: nat) {
    exists n :: EndsWithin(text, 0, size, overlap, n)
  }

  lemma {:induction false} ProgressEnds(text: string, start: nat, size: nat, overlap: nat, n: nat)
    requires Progresses(size, overlap) && start <= |text| && n >= |text| - start
    ensures EndsWithin(text, start, size, overlap, n)
    decreases n
  {
    if start < |text| {
      StepAdvances(text, start, size, overlap);
      ProgressEnds(text, NextStart(text, start, size, overlap), size, overlap, n - 1);
    }
  }

  lemma {:induction false} TrapNeverEnds(size: nat, overlap: nat, n: nat)
    requires !Progresses(size, overlap)
    ensures !EndsWithin(Trap(size), 0, size, overlap, n)
  {
    TrapHolds(size, overlap);
    if n > 0 {
      TrapNeverEnds(size, overlap, n - 1);
    }
  }

  /** The loop ends on every text, exactly if the sizes satisfy Progresses. */
  lemma AlwaysEndsIff(size: nat, overlap: nat)
    ensures Progresses(size, overlap) <==> forall text: string :: Ends(text, size, overlap)
  {
    if Progresses(size, overlap) {
      forall text: string ensures Ends(text, size, overlap) {
        ProgressEnds(text, 0, size, overlap, |text|);
      }
    } else {
      forall n ensures !EndsWithin(Trap(size), 0, size, overlap, n) {
        TrapNeverEnds(size, overlap, n);
      }
      assert !Ends(Trap(size), size, overlap);
    }
  }

  // ---------------------------------------------------------------- windows and chunks

  function Slice(text: string, w: Window): string
    requires w.start <= w.end <= |text|
  {
    text[w.start..w.end]
  }

  predicate InText(text: string, ws: seq<Window>) {
    forall k | 0 <= k < |ws| :: ws[k].start <= ws[k].end <= |text|
  }

  /** w starts `overlap` characters before the end of v, and both its ends lie further on. */
  predicate Follows(v: Window, w: Window, overlap: nat) {
    w.start + overlap == v.end && v.start < w.start && v.end < w.end
  }

  /** Windows from the start of the text, each sharing exactly `overlap` characters with the one before. */
  ghost predicate Covers(text: string, ws: seq<Window>, size: nat, overlap: nat) {
    && InText(text, ws)
    && (ws != [] ==> ws[0].start == 0)
    && (forall k | 0 <= k < |ws| :: ws[k].start < ws[k].end <= ws[k].start + size)
    && (forall k | 0 < k < |ws| :: Follows(ws[k - 1], ws[k], overlap))
  }

  function Without(s: string, n: nat): string {
    if n <= |s| then s[n..] else ""
  }

  /** The windows' texts in a row, each but the first without its overlap. */
  function Rejoined(text: string, ws: seq<Window>, overlap: nat): string
    requires InText(text, ws)
  {
    if ws == [] then ""
    else
      var k := |ws| - 1;
      if k == 0 then Slice(text, ws[0]) else Rejoined(text, ws[..k], overlap) + Without(Slice(text, ws[k]), overlap)
  }

  function LastEnd(ws: seq<Window>): nat {
    if ws == [] then 0 else ws[|ws| - 1].end
  }

  /** Joining the windows without their overlaps rebuilds the text. */
  lemma {:induction false} RejoinedIsText(text: string, ws: seq<Window>, size: nat, overlap: nat)
    requires Covers(text, ws, size, overlap)
    ensures Rejoined(text, ws, overlap) == text[..LastEnd(ws)]
  {
    if |ws| > 1 {
      var k := |ws| - 1;
      CoversPrefix(text, ws, size, overlap);
      RejoinedIsText(text, ws[..k], size, overlap);
      OverlapIsDropped(text, ws[k - 1], ws[k], overlap);
      hide Covers, Slice, Without;
    }
  }

  lemma OverlapIsDropped(text: string, v: Window, w: Window, overlap: nat)
    requires Follows(v, w, overlap) && w.start <= w.end <= |text|
    ensures text[..v.end] + Without(Slice(text, w), overlap) == text[..w.end]
  {
    assert Slice(text, w)[overlap..] == text[v.end..w.end];
  }

  lemma CoversPrefix(text: string, ws: seq<Window>, size: nat, overlap: nat)
    requires Covers(text, ws, size, overlap) && |ws| > 1
    ensures var k := |ws| - 1;
            && Covers(text, ws[..k], size, overlap) && Follows(ws[k - 1], ws[k], overlap)
            && LastEnd(ws[..k]) == ws[k - 1].end && InText(text, ws) && InText(text, ws[..k]) && ws[k].end <= |text|
  {
    var init := ws[..|ws| - 1];
    forall k | 0 < k < |init| ensures Follows(init[k - 1], init[k], overlap) {
      assert Follows(ws[k - 1], ws[k], overlap);
    }
  }

  function TrimStart(s: string, space: char -> bool): string {
    if s != "" && space(s[0]) then TrimStart(s[1..], space) else s
  }

  function TrimEnd(s: string, space: char -> bool): string {
    if s != "" && space(s[|s| - 1]) then TrimEnd(s[..|s| - 1], space) else s
  }

  function Trim(s: string, space: char -> bool): string {
    TrimEnd(TrimStart(s, space), space)
  }

  predicate Blank(s: string, space: char -> bool) {
    forall k | 0 <= k < |s| :: space(s[k])
  }

  lemma {:induction false} TrimStartDrops(s: string, space: char -> bool) returns (a: string)
    ensures s == a + TrimStart(s, space) && Blank(a, space)
    ensures TrimStart(s, space) != "" ==> !space(TrimStart(s, space)[0])
  {
    a := "";
    if s != "" && space(s[0]) {
      a := TrimStartDrops(s[1..], space);
      assert s == [s[0]] + (a + TrimStart(s[1..], space));
      a := [s[0]] + a;
    }
  }

  lemma {:induction false} TrimEndDrops(s: string, space: char -> bool) returns (b: string)
    ensures s == TrimEnd(s, space) + b && Blank(b, space)
    ensures TrimEnd(s, space) != "" ==> !space(TrimEnd(s, space)[|TrimEnd(s, space)| - 1])
  {
    b := "";
    if s != "" && space(s[|s| - 1]) {
      var init := s[..|s| - 1];
      b := TrimEndDrops(init, space);
      assert s == (TrimEnd(init, space) + b) + [s[|s| - 1]];
      b := b + [s[|s| - 1]];
    }
  }

  /** Trimming drops only white space, at both ends, and all of it there. */
  lemma TrimDropsSpace(s: string, space: char -> bool) returns (a: string, b: string)
    ensures s == a + Trim(s, space) + b && Blank(a, space) && Blank(b, space)
    ensures var t := Trim(s, space); t != "" ==> !space(t[0]) && !space(t[|t| - 1])
  {
    a := TrimStartDrops(s, space);
    b := TrimEndDrops(TrimStart(s, space), space);
    assert a + (Trim(s, space) + b) == a + Trim(s, space) + b;
  }

  /** One chunk per window that is not blank, numbered in order. */
  function ChunksOf(text: string, ws: seq<Window>, space: char -> bool): seq<Chunk>
    requires InText(text, ws)
  {
    if ws == [] then []
    else
      var k := |ws| - 1;
      var before, trimmed := ChunksOf(text, ws[..k], space), Trim(Slice(text, ws[k]), space);
      if trimmed == "" then before else before + [Chunk(|before|, trimmed, ws[k].start)]
  }

  ghost predicate IsChunkOf(text: string, w: Window, space: char -> bool, k: nat, c: Chunk) {
    w.start <= w.end <= |text| && c == Chunk(k, Trim(text[w.start..w.end], space), w.start) && c.text != ""
  }

  /** `at` lists the windows that are not blank in order, and these are their chunks. */
  ghost predicate ListsChunks(text: string, ws: seq<Window>, space: char -> bool, at: seq<nat>, chunks: seq<Chunk>)
    requires InText(text, ws)
  {
    && Increasing(at) && |at| == |chunks|
    && (forall m: nat :: m in at <==> m < |ws| && Trim(text[ws[m].start..ws[m].end], space) != "")
    && (forall k | 0 <= k < |at| :: at[k] < |ws| && IsChunkOf(text, ws[at[k]], space, k, chunks[k]))
  }

  lemma ListsOneMore(text: string, ws: seq<Window>, w: Window, space: char -> bool, at: seq<nat>, chunks: seq<Chunk>)
    requires w.start <= w.end <= |text| && InText(text, ws) && ListsChunks(text, ws, space, at, chunks)
    ensures InText(text, ws + [w])
    ensures var trimmed := Trim(text[w.start..w.end], space);
            if trimmed == "" then ListsChunks(text, ws + [w], space, at, chunks)
            else ListsChunks(text, ws + [w], space, at + [|ws|], chunks + [Chunk(|chunks|, trimmed, w.start)])
  {
    hide Trim;
    if Trim(text[w.start..w.end], space) != "" {
      hide Increasing;
      IncreasingLonger(at, |ws|);
    }
  }

  /** The chunks are, in order, those of the windows that are not blank. */
  lemma {:induction false} ChunksAreNumbered(text: string, ws: seq<Window>, space: char -> bool) returns (at: seq<nat>)
    requires InText(text, ws)
    ensures ListsChunks(text, ws, space, at, ChunksOf(text, ws, space))
  {
    at := [];
    if ws != [] {
      hide Trim;
      var n := |ws| - 1;
      at := ChunksAreNumbered(text, ws[..n], space);
      ListsOneMore(text, ws[..n], ws[n], space, at, ChunksOf(text, ws[..n], space));
      hide ListsChunks;
      assert ws[..n] + [ws[n]] == ws;
      if Trim(text[ws[n].start..ws[n].end], space) != "" {
        at := at + [n];
      }
    }
  }

  method FindEnd(text: string, start: nat, size: nat) returns (actualEnd: nat)
    requires start <= |text|
    ensures actualEnd == WindowEnd(text, start, size)
  {
    var end := Min(start + size, |text|);
    actualEnd := end;
    if end < |text| {
      var searchStart := Minus(end, size / 5);
      for i := end downto searchStart
        invariant actualEnd == end
        invariant LastBreak(text, searchStart, end) == LastBreak(text, searchStart, i)
      {
        if IsBreak(text[i]) {
          actualEnd := i + 1;
          break;
        }
      }
    }
  }

  /** The loop's next window starts where it should after the windows so far. */
  ghost predicate Continues(text: string, ws: seq<Window>, start: nat, size: nat, overlap: nat) {
    && Covers(text, ws, size, overlap) && start <= |text|
    && if start == |text| then LastEnd(ws) == |text|
       else if ws == [] then start == 0
       else start + overlap == LastEnd(ws) < |text| && ws[|ws| - 1].start < start
  }

  lemma NextWindow(text: string, ws: seq<Window>, start: nat, size: nat, overlap: nat)
    requires Progresses(size, overlap) && start < |text| && Continues(text, ws, start, size, overlap)
    ensures Continues(text, ws + [Window(start, WindowEnd(text, start, size))], NextStart(text, start, size, overlap), size, overlap)
    ensures start < NextStart(text, start, size, overlap)
  {
    StepAdvances(text, start, size, overlap);
    var w := Window(start, WindowEnd(text, start, size));
    var longer := ws + [w];
    assert |ws| > 0 ==> Follows(ws[|ws| - 1], w, overlap);
    forall k | 0 < k < |longer| ensures Follows(longer[k - 1], longer[k], overlap) {
      if k < |ws| {
        assert longer[k - 1] == ws[k - 1] && longer[k] == ws[k];
      }
    }
  }

  lemma ChunksOfLonger(text: string, ws: seq<Window>, w: Window, space: char -> bool)
    requires InText(text, ws + [w]) && InText(text, ws) && w.start <= w.end <= |text|
    ensures ChunksOf(text, ws + [w], space) ==
            var before, trimmed := ChunksOf(text, ws, space), Trim(Slice(text, w), space);
            if trimmed == "" then before else before + [Chunk(|before|, trimmed, w.start)]
  {
    assert (ws + [w])[..|ws|] == ws;
  }

  /** The windows that the loop goes through from here on, if it ends within n of them. */
  function Windows(text: string, start: nat, size: nat, overlap: nat, n: nat): seq<Window>
    requires start <= |text| && EndsWithin(text, start, size, overlap, n)
    decreases n
  {
    if start == |text| then []
    else
      [Window(start, WindowEnd(text, start, size))] +
      Windows(text, NextStart(text, start, size, overlap), size, overlap, n - 1)
  }

  lemma WindowsUnfold(text: string, ws: seq<Window>, start: nat, size: nat, overlap: nat, n: nat)
    requires start < |text| && EndsWithin(text, start, size, overlap, n)
    ensures var w, next := Window(start, WindowEnd(text, start, size)), NextStart(text, start, size, overlap);
            && n > 0 && EndsWithin(text, next, size, overlap, n - 1)
            && ws + Windows(text, start, size, overlap, n) == (ws + [w]) + Windows(text, next, size, overlap, n - 1)
  {
    var w, next := Window(start, WindowEnd(text, start, size)), NextStart(text, start, size, overlap);
    var rest := Windows(text, next, size, overlap, n - 1);
    assert Windows(text, start, size, overlap, n) == [w] + rest;
    hide *;
    assert ws + ([w] + rest) == (ws + [w]) + rest;
  }

  lemma {:induction false} WindowsContinue(text: string, ws: seq<Window>, start: nat, size: nat, overlap: nat, n: nat)
    requires start <= |text| && EndsWithin(text, start, size, overlap, n)
    requires Progresses(size, overlap) && Continues(text, ws, start, size, overlap)
    ensures Continues(text, ws + Windows(text, start, size, overlap, n), |text|, size, overlap)
    decreases n
  {
    if start == |text| {
      assert ws + Windows(text, start, size, overlap, n) == ws;
    } else {
      hide WindowEnd, NextStart, Windows, Continues;
      NextWindow(text, ws, start, size, overlap);
      WindowsUnfold(text, ws, start, size, overlap, n);
      var w, next := Window(start, WindowEnd(text, start, size)), NextStart(text, start, size, overlap);
      WindowsContinue(text, ws + [w], next, size, overlap, n - 1);
    }
  }

  /** The windows cover the text without gaps, share exactly `overlap` characters, and rebuild the text. */
  lemma WindowsAreExact(text: string, size: nat, overlap: nat, n: nat)
    requires Progresses(size, overlap) && EndsWithin(text, 0, size, overlap, n)
    ensures var ws := Windows(text, 0, size, overlap, n);
            Covers(text, ws, size, overlap) && LastEnd(ws) == |text| && Rejoined(text, ws, overlap) == text
  {
    var ws := Windows(text, 0, size, overlap, n);
    assert Continues(text, [], 0, size, overlap);
    WindowsContinue(text, [], 0, size, overlap, n);
    assert [] + ws == ws;
    RejoinedIsText(text, ws, size, overlap);
    assert text[..|text|] == text;
  }

  /** What the loop has done when it comes to `start`: the windows so far, and their chunks. */
  ghost predicate ChunkedUpTo(text: string, ws: seq<Window>, start: nat, size: nat, overlap: nat, space: char -> bool,
                              chunks: seq<Chunk>, all: seq<Window>, n: nat)
  {
    && start <= |text| && EndsWithin(text, start, size, overlap, n)
    && ws + Windows(text, start, size, overlap, n) == all
    && InText(text, ws) && chunks == ChunksOf(text, ws, space)
  }

  /** The chunks after one more window. */
  function WithWindow(text: string, w: Window, space: char -> bool, chunks: seq<Chunk>): seq<Chunk>
    requires w.start <= w.end <= |text|
  {
    var trimmed := Trim(Slice(text, w), space);
    if trimmed == "" then chunks else chunks + [Chunk(|chunks|, trimmed, w.start)]
  }

  lemma ChunkedUpToNext(text: string, ws: seq<Window>, start: nat, size: nat, overlap: nat, space: char -> bool,
                        chunks: seq<Chunk>, all: seq<Window>, n: nat)
    requires start < |text| && ChunkedUpTo(text, ws, start, size, overlap, space, chunks, all, n)
    ensures var w := Window(start, WindowEnd(text, start, size));
            && n > 0
            && ChunkedUpTo(text, ws + [w], NextStart(text, start, size, overlap), size, overlap, space,
                           WithWindow(text, w, space, chunks), all, n - 1)
  {
    hide WindowEnd, NextStart, Windows, ChunksOf, Trim, EndsWithin;
    var w := Window(start, WindowEnd(text, start, size));
    WindowsUnfold(text, ws, start, size, overlap, n);
    ChunksOfLonger(text, ws, w, space);
  }

  /** One chunk per window that is not blank, on every text on which the loop ends. */
  method ChunkFixed(text: string, size: nat, overlap: nat, space: char -> bool, ghost n: nat) returns (chunks: seq<Chunk>)
    requires EndsWithin(text, 0, size, overlap, n)
    ensures InText(text, Windows(text, 0, size, overlap, n))
    ensures chunks == ChunksOf(text, Windows(text, 0, size, overlap, n), space)
  {
    chunks := [];
    ghost var ws: seq<Window>, left: nat := [], n;
    ghost var all := Windows(text, 0, size, overlap, n);
    var start: nat := 0;
    while start < |text|
      invariant start <= |text| && ChunkedUpTo(text, ws, start, size, overlap, space, chunks, all, left)
      decreases left
    {
      var actualEnd := FindEnd(text, start, size);
      ghost var w := Window(start, actualEnd);
      ghost var next, longer := NextStart(text, start, size, overlap), WithWindow(text, w, space, chunks);
      ChunkedUpToNext(text, ws, start, size, overlap, space, chunks, all, left);
      hide ChunkedUpTo, Trim;
      ws, left := ws + [w], left - 1;
      var chunkText := Trim(text[start..actualEnd], space);
      if chunkText != "" {
        chunks := chunks + [Chunk(|chunks|, chunkText, start)];
      }
      start := if actualEnd >= |text| then |text| else Minus(actualEnd, overlap);
      assert chunks == longer && start == next;
      hide *;
    }
    assert ws + [] == ws;
  }
}
