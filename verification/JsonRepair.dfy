/** Completing a truncated JSON text: close the open string, then the open braces and brackets. */
module JsonRepair {
  import opened JsonText

  datatype Scan = Scan(inString: bool, escape: bool, stack: seq<char>) {
    predicate IsClean() {
      !inString && !escape && stack == []
    }

    function Top(): char
      requires stack != []
    {
      stack[|stack| - 1]
    }

    predicate TopIs(c: char) {
      stack != [] && Top() == c
    }

    function Popped(): Scan
      requires stack != []
    {
      this.(stack := stack[..|stack| - 1])
    }
  }

  const START := Scan(false, false, [])

  /** One character of the scan; a closer that does not match the innermost opener is ignored. */
  function Step(s: Scan, ch: char): Scan {
    if s.escape then s.(escape := false)
    else if ch == '\\' && s.inString then s.(escape := true)
    else if ch == '"' then s.(inString := !s.inString)
    else if s.inString then s
    else if ch == '{' || ch == '[' then s.(stack := s.stack + [ch])
    else if ch == '}' && s.TopIs('{') then s.Popped()
    else if ch == ']' && s.TopIs('[') then s.Popped()
    else s
  }

  function Run(s: Scan, text: string): Scan
    decreases |text|
  {
    if text == "" then s else Run(Step(s, text[0]), text[1..])
  }

  lemma {:induction false} RunOfJoin(s: Scan, a: string, b: string)
    ensures Run(s, a + b) == Run(Run(s, a), b)
    decreases |a|
  {
    if a == "" {
      assert a + b == b;
    } else {
      assert (a + b)[1..] == a[1..] + b;
      RunOfJoin(Step(s, a[0]), a[1..], b);
    }
  }

  function Closer(open: char): char {
    if open == '{' then '}' else ']'
  }

  /** The closers of all open brackets, innermost first. */
  function Closers(stack: seq<char>): string {
    if stack == [] then "" else [Closer(stack[|stack| - 1])] + Closers(stack[..|stack| - 1])
  }

  function Completed(raw: string): string {
    var end := Run(START, raw);
    raw + (if end.inString then "\"" else "") + Closers(end.stack)
  }

  /** The scanner as the code has it: copy, track, then append what is missing. */
  method CompleteJsonPrefix(raw: string) returns (out: string)
    ensures out == Completed(raw)
  {
    out := "";
    var inString, escape := false, false;
    var stack: seq<char> := [];
    for i := 0 to |raw|
      invariant out == raw[..i]
      invariant Run(Scan(inString, escape, stack), raw[i..]) == Run(START, raw)
    {
      var ch := raw[i];
      assert raw[i..][0] == ch && raw[i..][1..] == raw[i + 1..];
      out := out + [ch];
      if escape {
        escape := false;
        continue;
      }
      if ch == '\\' && inString {
        escape := true;
      } else if ch == '"' {
        inString := !inString;
      } else if (ch == '{' || ch == '[') && !inString {
        stack := stack + [ch];
      } else if ch == '}' && !inString {
        if stack != [] && stack[|stack| - 1] == '{' {
          stack := stack[..|stack| - 1];
        }
      } else if ch == ']' && !inString {
        if stack != [] && stack[|stack| - 1] == '[' {
          stack := stack[..|stack| - 1];
        }
      }
    }
    assert raw[..|raw|] == raw && raw[|raw|..] == "";
    ghost var end := Run(START, raw);
    assert end == Scan(inString, escape, stack);
    if inString {
      out := out + "\"";
    }
    ghost var base := out;
    while stack != []
      invariant out + Closers(stack) == base + Closers(end.stack)
      decreases |stack|
    {
      var open := stack[|stack| - 1];
      stack := stack[..|stack| - 1];
      out := out + [if open == '{' then '}' else ']'];
    }
    assert out == base + Closers(end.stack) && base == raw + if end.inString then "\"" else "";
  }

  // ---------------------------------------------------------------- the completed text is closed

  predicate Openers(stack: seq<char>) {
    forall k | 0 <= k < |stack| :: stack[k] == '{' || stack[k] == '['
  }

  /** What every scan satisfies: escapes happen in strings, and only openers are stacked. */
  lemma {:induction false} RunIsSane(s: Scan, text: string)
    requires (s.escape ==> s.inString) && Openers(s.stack)
    ensures var r := Run(s, text); (r.escape ==> r.inString) && Openers(r.stack)
    decreases |text|
  {
    if text != "" {
      RunIsSane(Step(s, text[0]), text[1..]);
    }
  }

  lemma {:induction false} ClosersClose(s: Scan)
    requires !s.inString && !s.escape && Openers(s.stack)
    ensures Run(s, Closers(s.stack)) == START
    decreases |s.stack|
  {
    if s.stack != [] {
      ClosersClose(s.Popped());
      var text := Closers(s.stack);
      assert text[1..] == Closers(s.Popped().stack);
      assert Step(s, text[0]) == s.Popped();
    }
  }

  lemma {:induction false} ClosersAreInertInStrings(s: Scan, stack: seq<char>)
    requires s.inString && !s.escape
    ensures Run(s, Closers(stack)) == s
    decreases |stack|
  {
    if stack != [] {
      ClosersAreInertInStrings(s, stack[..|stack| - 1]);
      assert Closers(stack)[1..] == Closers(stack[..|stack| - 1]);
    }
  }

  /** The completed text closes everything exactly when the input does not end in the middle of an escape. */
  lemma ClosedIffNotMidEscape(raw: string)
    ensures raw <= Completed(raw)
    ensures Run(START, Completed(raw)).IsClean() <==> !Run(START, raw).escape
  {
    var end := Run(START, raw);
    RunIsSane(START, raw);
    var quote := if end.inString then "\"" else "";
    RunOfJoin(START, raw + quote, Closers(end.stack));
    RunOfJoin(START, raw, quote);
    var closed := Run(end, quote);
    assert quote != "" ==> quote[1..] == "";
    if end.escape {
      ClosersAreInertInStrings(closed, end.stack);
    } else {
      ClosersClose(closed);
    }
  }

  /** What the scanner appends. */
  function Tail(s: Scan): string {
    (if s.inString then "\"" else "") + Closers(s.stack)
  }

  /** How many characters it takes at least to close everything. */
  function Depth(s: Scan): nat {
    |s.stack| + if s.inString then 1 else 0
  }

  lemma {:induction false} ClosersLength(stack: seq<char>)
    ensures |Closers(stack)| == |stack|
  {
    if stack != [] { ClosersLength(stack[..|stack| - 1]); }
  }

  lemma {:induction false} ClosingTakesDepth(s: Scan, more: string)
    requires Run(s, more).IsClean()
    ensures |more| >= Depth(s)
    decreases |more|
  {
    if more != "" {
      ClosingTakesDepth(Step(s, more[0]), more[1..]);
    }
  }

  /** Only one text of that length closes everything. */
  lemma {:induction false} ShortestIsTail(s: Scan, more: string)
    requires !s.escape && Run(s, more).IsClean() && |more| == Depth(s)
    ensures more == Tail(s)
    decreases |more|
  {
    if more != "" {
      var t, rest := Step(s, more[0]), more[1..];
      ClosingTakesDepth(t, rest);
      ShortestIsTail(t, rest);
      assert more == [more[0]] + rest;
      assert Depth(t) == Depth(s) - 1;
    }
  }

  /**
   If the input does not end in the middle of an escape, no shorter text than the appended one closes everything, and
   no other one of the same length.
   */
  lemma CompletionIsShortest(raw: string, more: string)
    requires Run(START, raw + more).IsClean()
    ensures |raw + more| >= |Completed(raw)|
    ensures !Run(START, raw).escape && |raw + more| == |Completed(raw)| ==> raw + more == Completed(raw)
  {
    var end := Run(START, raw);
    RunOfJoin(START, raw, more);
    ClosingTakesDepth(end, more);
    ClosersLength(end.stack);
    assert Completed(raw) == raw + Tail(end);
    if !end.escape && |more| == Depth(end) {
      ShortestIsTail(end, more);
    }
  }

  /**
   A text that is already closed is left alone. So completing twice changes nothing more, unless the input ends in
   the middle of an escape: then the first completion leaves the string open.
   */
  lemma CompletionIsIdempotent(raw: string)
    ensures Run(START, raw).IsClean() ==> Completed(raw) == raw
    ensures Completed(Completed(raw)) == Completed(raw) <==> !Run(START, raw).escape
  {
    ClosedIffNotMidEscape(raw);
    var end := Run(START, raw);
    if end.escape {
      RunIsSane(START, raw);
      RunOfJoin(START, raw + "\"", Closers(end.stack));
      RunOfJoin(START, raw, "\"");
      assert "\""[1..] == "";
      ClosersAreInertInStrings(Run(end, "\""), end.stack);
      assert Run(START, Completed(raw)).inString;
      assert |Completed(Completed(raw))| > |Completed(raw)|;
    }
  }

  // ---------------------------------------------------------------- and well bracketed, if it could be

  predicate Mismatched(s: Scan, ch: char) {
    !s.inString && !s.escape && ((ch == '}' && !s.TopIs('{')) || (ch == ']' && !s.TopIs('[')))
  }

  /** No closer is met that does not match the innermost opener. */
  predicate Matches(s: Scan, text: string)
    decreases |text|
  {
    text == "" || (!Mismatched(s, text[0]) && Matches(Step(s, text[0]), text[1..]))
  }

  lemma {:induction false} MatchesJoin(s: Scan, a: string, b: string)
    ensures Matches(s, a + b) <==> Matches(s, a) && Matches(Run(s, a), b)
    decreases |a|
  {
    if a == "" {
      assert a + b == b;
    } else {
      assert (a + b)[1..] == a[1..] + b;
      MatchesJoin(Step(s, a[0]), a[1..], b);
    }
  }

  lemma {:induction false} ItemsScan(items: seq<Item>, s: Scan)
    requires s.inString && !s.escape && forall k | 0 <= k < |items| :: ItemOk(items[k])
    ensures Run(s, RenderItems(items)) == s && Matches(s, RenderItems(items))
    decreases |items|
  {
    if items != [] {
      var first, rest := RenderItem(items[0]), RenderItems(items[1..]);
      ItemsScan(items[1..], s);
      RunOfJoin(s, first, rest);
      MatchesJoin(s, first, rest);
      assert first[1..] == if items[0].Escaped? then [items[0].c] else "";
      if items[0].Escaped? {
        assert first[1..][1..] == "";
      }
    }
  }

  lemma {:induction false} PieceScans(p: Piece, s: Scan)
    requires PieceOk(p) && !s.inString && !s.escape
    ensures Run(s, RenderPiece(p)) == s && Matches(s, RenderPiece(p))
    decreases p
  {
    match p
    case Char(c) =>
      assert RenderPiece(p)[1..] == "";
    case Str(items) =>
      var open := s.(inString := true);
      ItemsScan(items, open);
      Enclosed(s, "\"", RenderItems(items), "\"");
    case Braces(inner) =>
      TextScans(inner, s.(stack := s.stack + ['{']));
      Enclosed(s, "{", Render(inner), "}");
    case Brackets(inner) =>
      TextScans(inner, s.(stack := s.stack + ['[']));
      Enclosed(s, "[", Render(inner), "]");
  }

  /** A body that scans back to the state after its opener, between a matching pair. */
  lemma Enclosed(s: Scan, open: string, body: string, close: string)
    requires |open| == 1 && |close| == 1 && !s.inString && !s.escape
    requires !Mismatched(s, open[0]) && Run(Step(s, open[0]), body) == Step(s, open[0]) && Matches(Step(s, open[0]), body)
    requires !Mismatched(Step(s, open[0]), close[0])
    ensures Run(s, open + body + close) == Step(Step(s, open[0]), close[0])
    ensures Matches(s, open + body + close)
  {
    assert open[1..] == "" && close[1..] == "";
    RunOfJoin(s, open, body);
    RunOfJoin(s, open + body, close);
    MatchesJoin(s, open, body);
    MatchesJoin(s, open + body, close);
  }

  lemma {:induction false} TextScans(t: Text, s: Scan)
    requires TextOk(t) && !s.inString && !s.escape
    ensures Run(s, Render(t)) == s && Matches(s, Render(t))
    decreases t
  {
    match t
    case Nil =>
    case Cons(p, rest) =>
      PieceScans(p, s);
      TextScans(rest, s);
      RunOfJoin(s, RenderPiece(p), Render(rest));
      MatchesJoin(s, RenderPiece(p), Render(rest));
  }

  lemma {:induction false} ClosersMatch(s: Scan)
    requires !s.inString && !s.escape && Openers(s.stack)
    ensures Matches(s, Closers(s.stack))
    decreases |s.stack|
  {
    if s.stack != [] {
      ClosersMatch(s.Popped());
      var text := Closers(s.stack);
      assert text[1..] == Closers(s.Popped().stack) && Step(s, text[0]) == s.Popped();
    }
  }

  /** Well-bracketed texts, one per open bracket and one after the last, joined by the closers. */
  function Spine(texts: seq<Text>, stack: seq<char>): string
    requires |texts| == |stack| + 1
    decreases |stack|
  {
    if stack == [] then Render(texts[0])
    else Render(texts[0]) + [Closer(stack[|stack| - 1])] + Spine(texts[1..], stack[..|stack| - 1])
  }

  ghost predicate TextsOk(texts: seq<Text>) {
    forall k | 0 <= k < |texts| :: TextOk(texts[k])
  }

  /** The rest of a spine after its first text. */
  function Beyond(texts: seq<Text>, stack: seq<char>): string
    requires |texts| == |stack| + 1
  {
    if stack == [] then "" else [Closer(stack[|stack| - 1])] + Spine(texts[1..], stack[..|stack| - 1])
  }

  lemma SpineIsHeadAndBeyond(texts: seq<Text>, stack: seq<char>)
    requires |texts| == |stack| + 1
    ensures Spine(texts, stack) == Render(texts[0]) + Beyond(texts, stack)
  {
  }

  lemma JoinIsAssociative(a: string, b: string, c: string)
    ensures (a + b) + c == a + (b + c)
  {
  }

  lemma RenderCons(p: Piece, t: Text)
    ensures Render(Cons(p, t)) == RenderPiece(p) + Render(t)
  {
  }

  lemma SpineWithHead(p: Piece, texts: seq<Text>, stack: seq<char>)
    requires |texts| == |stack| + 1
    ensures Spine([Cons(p, texts[0])] + texts[1..], stack) == RenderPiece(p) + Spine(texts, stack)
  {
    hide Spine, Render, RenderPiece;
    var more := [Cons(p, texts[0])] + texts[1..];
    assert more[1..] == texts[1..];
    SpineIsHeadAndBeyond(texts, stack);
    SpineIsHeadAndBeyond(more, stack);
    RenderCons(p, texts[0]);
    JoinIsAssociative(RenderPiece(p), Render(texts[0]), Beyond(texts, stack));
  }

  function Bracketed(open: char, inner: Text): Piece {
    if open == '{' then Braces(inner) else Brackets(inner)
  }

  lemma RenderBracketed(c: char, inner: Text)
    requires c == '{' || c == '['
    ensures RenderPiece(Bracketed(c, inner)) == [c] + (Render(inner) + [Closer(c)])
  {
  }

  /** An opener's text, its closer and the next text make one bracketed piece. */
  lemma SpineOfOpener(c: char, inner: seq<Text>, stack: seq<char>)
    requires (c == '{' || c == '[') && |inner| == |stack| + 2
    ensures Spine([Cons(Bracketed(c, inner[0]), inner[1])] + inner[2..], stack) == [c] + Spine(inner, stack + [c])
  {
    hide Spine, Render, RenderPiece, Bracketed, Closer;
    var p := Bracketed(c, inner[0]);
    SpineWithHead(p, inner[1..], stack);
    assert inner[1..][1..] == inner[2..];
    SpineIsHeadAndBeyond(inner, stack + [c]);
    assert (stack + [c])[..|stack|] == stack;
    RenderBracketed(c, inner[0]);
    var a, b, z := Render(inner[0]), Spine(inner[1..], stack), [Closer(c)];
    JoinIsAssociative([c], a + z, b);
    JoinIsAssociative(a, z, b);
  }

  lemma OkWithHead(p: Piece, texts: seq<Text>)
    requires PieceOk(p) && texts != [] && TextsOk(texts)
    ensures TextsOk([Cons(p, texts[0])] + texts[1..])
  {
    assert TextOk(Cons(p, texts[0]));
  }

  lemma OkOfCloser(after: seq<Text>)
    requires TextsOk(after)
    ensures TextsOk([Nil] + after)
  {
  }

  lemma SpineOfCloser(after: seq<Text>, stack: seq<char>)
    requires stack != [] && |after| == |stack|
    ensures Spine([Nil] + after, stack) == [Closer(stack[|stack| - 1])] + Spine(after, stack[..|stack| - 1])
  {
    hide Spine, Closer;
    assert ([Nil] + after)[1..] == after && Render(Nil) == "";
    SpineIsHeadAndBeyond([Nil] + after, stack);
  }

  ghost predicate Parsable(s: Scan, text: string) {
    Openers(s.stack) && Matches(s, text) && Run(s, text).IsClean()
  }

  lemma ParsableRest(s: Scan, text: string)
    requires Parsable(s, text) && text != ""
    ensures !Mismatched(s, text[0]) && Openers(Step(s, text[0]).stack) && Parsable(Step(s, text[0]), text[1..])
  {
  }

  lemma ParsedEnd(stack: seq<char>)
    requires Parsable(Scan(false, false, stack), "")
    ensures stack == [] && TextsOk([Nil]) && Spine([Nil], stack) == ""
  {
  }

  lemma OkOfOpener(c: char, inner: seq<Text>)
    requires (c == '{' || c == '[') && |inner| > 1 && TextsOk(inner)
    ensures TextsOk([Cons(Bracketed(c, inner[0]), inner[1])] + inner[2..])
  {
    assert inner[1..][1..] == inner[2..];
    OkWithHead(Bracketed(c, inner[0]), inner[1..]);
  }

  /** What remains of a text that scans to the end without a mismatch can be parsed. */
  lemma {:induction false} Parse(text: string, stack: seq<char>) returns (texts: seq<Text>)
    requires Parsable(Scan(false, false, stack), text)
    ensures |texts| == |stack| + 1 && TextsOk(texts) && Spine(texts, stack) == text
    decreases |text|
  {
    hide Parsable, Spine, Render, TextsOk, Bracketed;
    if text == "" {
      ParsedEnd(stack);
      texts := [Nil];
      return;
    }
    var c, rest := text[0], text[1..];
    ParsableRest(Scan(false, false, stack), text);
    assert text == [c] + rest;
    if c == '{' || c == '[' {
      var inner := Parse(rest, stack + [c]);
      texts := [Cons(Bracketed(c, inner[0]), inner[1])] + inner[2..];
      SpineOfOpener(c, inner, stack);
      OkOfOpener(c, inner);
    } else if c == '}' || c == ']' {
      var after := Parse(rest, stack[..|stack| - 1]);
      texts := [Nil] + after;
      SpineOfCloser(after, stack);
      OkOfCloser(after);
    } else if c == '"' {
      var items, after := ParseString(rest, stack);
      texts := [Cons(Str(items), after[0])] + after[1..];
      SpineWithHead(Str(items), after, stack);
      OkWithHead(Str(items), after);
    } else {
      var after := Parse(rest, stack);
      texts := [Cons(Char(c), after[0])] + after[1..];
      SpineWithHead(Char(c), after, stack);
      OkWithHead(Char(c), after);
    }
  }

  /** One item at the front of a string, and the text after it. */
  lemma FirstItem(text: string, stack: seq<char>) returns (item: Item, tail: string)
    requires Parsable(Scan(true, false, stack), text) && text != "" && text[0] != '"'
    ensures ItemOk(item) && text == RenderItem(item) + tail && Parsable(Scan(true, false, stack), tail) && |tail| < |text|
  {
    var s := Scan(true, false, stack);
    ParsableRest(s, text);
    assert text == [text[0]] + text[1..];
    item, tail := Plain(text[0]), text[1..];
    if text[0] == '\\' {
      ParsableRest(Scan(true, true, stack), tail);
      assert tail == [tail[0]] + tail[1..];
      item, tail := Escaped(tail[0]), tail[1..];
    }
  }

  lemma {:induction false} ParseString(text: string, stack: seq<char>) returns (items: seq<Item>, texts: seq<Text>)
    requires Parsable(Scan(true, false, stack), text)
    ensures |texts| == |stack| + 1 && TextsOk(texts) && forall k | 0 <= k < |items| :: ItemOk(items[k])
    ensures RenderItems(items) + "\"" + Spine(texts, stack) == text
    decreases |text|
  {
    if text[0] == '"' {
      ParsableRest(Scan(true, false, stack), text);
      items := [];
      texts := Parse(text[1..], stack);
    } else {
      var item, tail := FirstItem(text, stack);
      var more;
      more, texts := ParseString(tail, stack);
      items := [item] + more;
      assert items[1..] == more;
      var a, b, c := RenderItem(item), RenderItems(more), "\"" + Spine(texts, stack);
      assert a + (b + c) == (a + b) + c;
      assert b + c == RenderItems(more) + "\"" + Spine(texts, stack);
    }
  }

  lemma PrefixMatches(raw: string, whole: string)
    requires WellBracketed(whole) && raw <= whole
    ensures Matches(START, raw)
  {
    var t :| TextOk(t) && Render(t) == whole;
    TextScans(t, START);
    assert whole == raw + whole[|raw|..];
    MatchesJoin(START, raw, whole[|raw|..]);
  }

  lemma CompletedMatches(raw: string)
    requires Matches(START, raw) && !Run(START, raw).escape
    ensures WellBracketed(Completed(raw))
  {
    var end := Run(START, raw);
    RunIsSane(START, raw);
    var quote := if end.inString then "\"" else "";
    assert quote != "" ==> quote[1..] == "";
    MatchesJoin(START, raw, quote);
    RunOfJoin(START, raw, quote);
    MatchesJoin(START, raw + quote, Closers(end.stack));
    ClosersMatch(Run(end, quote));
    ClosedIffNotMidEscape(raw);
    var texts := Parse(Completed(raw), []);
    assert TextOk(texts[0]) && Render(texts[0]) == Completed(raw);
  }

  /** Completing a prefix of a well-bracketed text gives a well-bracketed text, unless it is cut inside an escape. */
  lemma CompletedIsWellBracketed(raw: string, whole: string)
    requires WellBracketed(whole) && raw <= whole
    ensures WellBracketed(Completed(raw)) <==> !Run(START, raw).escape
  {
    ClosedIffNotMidEscape(raw);
    if WellBracketed(Completed(raw)) {
      var t :| TextOk(t) && Render(t) == Completed(raw);
      TextScans(t, START);
    } else if !Run(START, raw).escape {
      PrefixMatches(raw, whole);
      CompletedMatches(raw);
    }
  }

  /** A text is well bracketed exactly if the scanner meets no mismatch in it and ends outside strings with nothing open. */
  lemma WellBracketedIff(text: string)
    ensures WellBracketed(text) <==> Matches(START, text) && Run(START, text).IsClean()
  {
    if WellBracketed(text) {
      var t :| TextOk(t) && Render(t) == text;
      TextScans(t, START);
    }
    if Matches(START, text) && Run(START, text).IsClean() {
      var texts := Parse(text, []);
      assert TextOk(texts[0]) && Render(texts[0]) == text;
    }
  }

  ghost predicate CanBeContinued(raw: string) {
    exists whole :: WellBracketed(whole) && raw <= whole
  }

  /** Any input is completed to a well-bracketed text exactly if it begins one and does not end inside an escape. */
  lemma CompletedIsWellBracketedIff(raw: string)
    ensures WellBracketed(Completed(raw)) <==> CanBeContinued(raw) && !Run(START, raw).escape
  {
    hide WellBracketed;
    ClosedIffNotMidEscape(raw);
    if WellBracketed(Completed(raw)) {
      CompletedIsWellBracketed(raw, Completed(raw));
    }
    if CanBeContinued(raw) {
      var whole :| WellBracketed(whole) && raw <= whole;
      CompletedIsWellBracketed(raw, whole);
    }
  }
}
