/** Salvaging the complete objects of a keyed array from a text that may be cut anywhere. */
module ArrayObjects {
  import opened Wrappers
  import opened JsonText

  // ---------------------------------------------------------------- finding the array

  predicate OccursAt(text: string, pattern: string, i: nat) {
    i + |pattern| <= |text| && text[i..i + |pattern|] == pattern
  }

  /** The first place at or after i where the pattern occurs. */
  function FindFrom(text: string, pattern: string, i: nat): Option<nat>
    decreases |text| - i
  {
    if i + |pattern| > |text| then None
    else if text[i..i + |pattern|] == pattern then Some(i)
    else FindFrom(text, pattern, i + 1)
  }

  /** r is the first occurrence at or after i, if there is one. */
  ghost predicate IsFirst(text: string, pattern: string, i: nat, r: Option<nat>) {
    && (r.Some? ==> i <= r.value && OccursAt(text, pattern, r.value))
    && (forall j: nat | i <= j && OccursAt(text, pattern, j) :: r.Some? && r.value <= j)
  }

  lemma {:induction false} FindFindsFirst(text: string, pattern: string, i: nat)
    ensures IsFirst(text, pattern, i, FindFrom(text, pattern, i))
    decreases |text| - i
  {
    if i + |pattern| <= |text| && text[i..i + |pattern|] != pattern {
      FindFindsFirst(text, pattern, i + 1);
    }
  }

  method Find(text: string, pattern: string, from: nat) returns (r: Option<nat>)
    ensures r == FindFrom(text, pattern, from)
  {
    var i := from;
    while i + |pattern| <= |text|
      invariant from <= i
      invariant FindFrom(text, pattern, i) == FindFrom(text, pattern, from)
    {
      if text[i..i + |pattern|] == pattern {
        return Some(i);
      }
      i := i + 1;
    }
    return None;
  }

  function Quoted(key: string): string {
    "\"" + key + "\""
  }

  /** Where the elements of the keyed array start: after the first '[' behind the first occurrence of the quoted key. */
  function ArrayStart(raw: string, key: string): Option<nat> {
    match FindFrom(raw, Quoted(key), 0)
    case None => None
    case Some(k) =>
      match FindFrom(raw, "[", k)
      case None => None
      case Some(b) => Some(b + 1)
  }

  // ---------------------------------------------------------------- collecting objects

  /** `current` is the text of the object being read, empty between objects; `done` says the array was closed. */
  datatype Sweep = Sweep(inString: bool, escape: bool, depth: nat, current: string, objects: seq<string>, done: bool) {
    /** The character belongs to the object being read. */
    function Keep(ch: char): Sweep {
      if depth > 0 then this.(current := current + [ch]) else this
    }
  }

  const FRESH := Sweep(false, false, 0, "", [], false)

  function Feed(s: Sweep, ch: char): Sweep {
    if s.done then s
    else if s.escape then s.(escape := false).Keep(ch)
    else if ch == '\\' && s.inString then s.(escape := true).Keep(ch)
    else if ch == '"' then s.(inString := !s.inString).Keep(ch)
    else if s.inString then s.Keep(ch)
    else if ch == '{' then s.(depth := s.depth + 1, current := s.current + [ch])
    else if ch == '}' && s.depth == 1 then s.(depth := 0, current := "", objects := s.objects + [s.current + [ch]])
    else if ch == '}' && s.depth > 1 then s.(depth := s.depth - 1, current := s.current + [ch])
    else if ch == ']' && s.depth == 0 then s.(done := true)
    else s.Keep(ch)
  }

  function FeedAll(s: Sweep, text: string): Sweep {
    if text == "" then s else Feed(FeedAll(s, text[..|text| - 1]), text[|text| - 1])
  }

  lemma {:induction false} FeedJoin(s: Sweep, a: string, b: string)
    ensures FeedAll(s, a + b) == FeedAll(FeedAll(s, a), b)
    decreases |b|
  {
    if b == "" {
      assert a + b == a;
    } else {
      var k := |b| - 1;
      assert (a + b)[..|a + b| - 1] == a + b[..k];
      FeedJoin(s, a, b[..k]);
    }
  }

  function Collected(raw: string, key: string): seq<string> {
    match ArrayStart(raw, key)
    case None => []
    case Some(start) => if start <= |raw| then FeedAll(FRESH, raw[start..]).objects else []  // start is always within raw
  }

  lemma {:induction false} DoneStays(s: Sweep, text: string)
    requires s.done
    ensures FeedAll(s, text) == s
  {
    if text != "" {
      DoneStays(s, text[..|text| - 1]);
    }
  }

  lemma NextCharacter(raw: string, first: nat, i: nat)
    requires first <= i < |raw|
    ensures FeedAll(FRESH, raw[first..i + 1]) == Feed(FeedAll(FRESH, raw[first..i]), raw[i])
    ensures forall k: nat | k <= i :: raw[k..i + 1] == raw[k..i] + [raw[i]]
  {
    assert raw[first..i + 1][..i - first] == raw[first..i];
  }

  lemma Closed(raw: string, first: nat, i: nat)
    requires first <= i <= |raw| && FeedAll(FRESH, raw[first..i]).done
    ensures FeedAll(FRESH, raw[first..]) == FeedAll(FRESH, raw[first..i])
  {
    DoneStays(FeedAll(FRESH, raw[first..i]), raw[i..]);
    FeedJoin(FRESH, raw[first..i], raw[i..]);
    assert raw[first..i] + raw[i..] == raw[first..];
  }

  /** The text of the object that began at start, if one is being read. */
  function Since(raw: string, start: Option<nat>, i: nat): string
    requires i <= |raw| && (start.Some? ==> start.value <= i)
  {
    if start.Some? then raw[start.value..i] else ""
  }

  /** The scanner as the code has it: it remembers where the current object began. */
  method CollectArrayObjects(raw: string, key: string) returns (objects: seq<string>)
    ensures objects == Collected(raw, key)
  {
    objects := [];
    var keyPos := Find(raw, Quoted(key), 0);
    if keyPos.None? { return; }
    var bracket := Find(raw, "[", keyPos.value);
    if bracket.None? { return; }
    FindFindsFirst(raw, "[", keyPos.value);
    objects := CollectFrom(raw, bracket.value + 1);
  }

  method CollectFrom(raw: string, first: nat) returns (objects: seq<string>)
    requires first <= |raw|
    ensures objects == FeedAll(FRESH, raw[first..]).objects
  {
    hide FeedAll;
    objects := [];
    var inString, escape := false, false;
    var depth: nat := 0;
    var start: Option<nat> := None;
    assert FeedAll(FRESH, raw[first..first]) == FRESH by { NothingFed(); assert raw[first..first] == ""; }
    for i := first to |raw|
      invariant depth > 0 <==> start.Some?
      invariant start.Some? ==> start.value <= i
      invariant FeedAll(FRESH, raw[first..i]) == Sweep(inString, escape, depth, Since(raw, start, i), objects, false)
    {
      var ch := raw[i];
      NextCharacter(raw, first, i);
      if escape {
        escape := false;
      } else if ch == '\\' && inString {
        escape := true;
      } else if ch == '"' {
        inString := !inString;
      } else if ch == '{' && !inString {
        if depth == 0 {
          start := Some(i);
        }
        depth := depth + 1;
      } else if ch == '}' && !inString {
        if depth > 0 {
          depth := depth - 1;
          if depth == 0 {
            objects := objects + [raw[start.value..i + 1]];
            start := None;
          }
        }
      } else if ch == ']' && !inString && depth == 0 {
        Closed(raw, first, i + 1);
        return;
      }
    }
    assert raw[first..|raw|] == raw[first..];
  }

  lemma NothingFed()
    ensures FeedAll(FRESH, "") == FRESH
  {
  }

  // ---------------------------------------------------------------- reading one object

  predicate Reading(s: Sweep) {
    !s.inString && !s.escape && !s.done && s.depth > 0
  }

  /** Since s, the sweep has done nothing but add this text to the object being read. */
  predicate Kept(s: Sweep, r: Sweep, text: string) {
    r.objects == s.objects && !r.done && r.depth >= s.depth && r.current == s.current + text
  }

  lemma KeptTwice(s: Sweep, m: Sweep, r: Sweep, a: string, b: string)
    requires Kept(s, m, a) && Kept(m, r, b)
    ensures Kept(s, r, a + b)
  {
    assert (s.current + a) + b == s.current + (a + b);
  }

  /** Inside an object, every part of this text from its start is only accumulated. */
  ghost predicate Accumulates(s: Sweep, text: string) {
    forall c | 0 <= c <= |text| :: Kept(s, FeedAll(s, text[..c]), text[..c])
  }

  lemma AccumulatesJoin(s: Sweep, a: string, b: string)
    requires Accumulates(s, a) && Accumulates(FeedAll(s, a), b)
    ensures Accumulates(s, a + b)
  {
    hide Kept, Feed, FeedAll;
    var m := FeedAll(s, a);
    assert a[..|a|] == a;
    forall c | 0 <= c <= |a + b| ensures Kept(s, FeedAll(s, (a + b)[..c]), (a + b)[..c]) {
      if c <= |a| {
        assert (a + b)[..c] == a[..c];
      } else {
        var d := c - |a|;
        assert (a + b)[..c] == a + b[..d];
        FeedJoin(s, a, b[..d]);
        KeptTwice(s, m, FeedAll(m, b[..d]), a, b[..d]);
      }
    }
  }

  /** The whole text is accumulated, and then the sweep stands where it stood. */
  ghost predicate Reads(s: Sweep, text: string) {
    Accumulates(s, text) && FeedAll(s, text) == s.(current := s.current + text)
  }

  lemma ReadsJoin(s: Sweep, a: string, b: string)
    requires Reads(s, a) && Reads(s.(current := s.current + a), b)
    ensures Reads(s, a + b)
  {
    hide Accumulates, Feed;
    AccumulatesJoin(s, a, b);
    FeedJoin(s, a, b);
    assert (s.current + a) + b == s.current + (a + b);
  }

  lemma ReadsNothing(s: Sweep)
    requires !s.done
    ensures Reads(s, "")
  {
    assert s.current + "" == s.current;
  }

  lemma AccumulatesOne(s: Sweep, ch: char)
    requires !s.done && s.depth > 0 && Feed(s, ch).depth >= s.depth && Feed(s, ch).objects == s.objects
    requires !Feed(s, ch).done && Feed(s, ch).current == s.current + [ch]
    ensures Accumulates(s, [ch]) && FeedAll(s, [ch]) == Feed(s, ch)
  {
    assert [ch][..0] == "" && [ch][..1] == [ch];
    assert FeedAll(s, [ch]) == Feed(s, ch);
    assert s.current + "" == s.current;
  }

  lemma {:induction false} ReadItems(s: Sweep, items: seq<Item>)
    requires s.inString && !s.escape && !s.done && s.depth > 0 && forall k | 0 <= k < |items| :: ItemOk(items[k])
    ensures Reads(s, RenderItems(items))
    decreases |items|
  {
    hide Reads;
    if items == [] {
      ReadsNothing(s);
    } else {
      var first := RenderItem(items[0]);
      ReadItem(s, items[0]);
      ReadItems(s.(current := s.current + first), items[1..]);
      ReadsJoin(s, first, RenderItems(items[1..]));
    }
  }

  lemma ReadItem(s: Sweep, i: Item)
    requires s.inString && !s.escape && !s.done && s.depth > 0 && ItemOk(i)
    ensures Reads(s, RenderItem(i))
  {
    match i
    case Plain(c) =>
      AccumulatesOne(s, c);
    case Escaped(c) =>
      AccumulatesOne(s, '\\');
      AccumulatesOne(Feed(s, '\\'), c);
      AccumulatesJoin(s, ['\\'], [c]);
      FeedJoin(s, ['\\'], [c]);
      assert ['\\'] + [c] == RenderItem(i);
      assert (s.current + ['\\']) + [c] == s.current + RenderItem(i);
  }

  lemma FeedOne(s: Sweep, ch: char)
    ensures FeedAll(s, [ch]) == Feed(s, ch)
  {
    assert [ch][..0] == "";
  }

  lemma AccumulatesWhole(s: Sweep, text: string)
    requires Accumulates(s, text)
    ensures Kept(s, FeedAll(s, text), text)
  {
    assert text[..|text|] == text;
  }

  lemma ReadEnclosed(s: Sweep, open: char, body: string, close: char)
    requires s.depth > 0 && !s.done
    requires Accumulates(s, [open]) && FeedAll(s, [open]).depth >= s.depth
    requires var o := FeedAll(s, [open]);
             && Reads(o, body)
             && var b := FeedAll(o, body);
                b.depth >= s.depth && Feed(b, close) == s.(current := b.current + [close])
    ensures Reads(s, [open] + body + [close])
  {
    hide FeedAll, Feed, Accumulates;
    var o := FeedAll(s, [open]);
    AccumulatesWhole(s, [open]);
    AccumulatesJoin(s, [open], body);
    FeedJoin(s, [open], body);
    FeedJoin(s, [open] + body, [close]);
    FeedOne(FeedAll(o, body), close);
    CloseAccumulates(s, [open] + body, close);
    assert s.current + ([open] + body + [close]) == s.current + [open] + body + [close];
  }

  lemma CloseAccumulates(s: Sweep, text: string, close: char)
    requires s.depth > 0 && Accumulates(s, text)
    requires Feed(FeedAll(s, text), close) == s.(current := FeedAll(s, text).current + [close])
    requires !s.done
    ensures Accumulates(s, text + [close])
  {
    assert text[..|text|] == text;
    var longer := text + [close];
    forall c | 0 <= c <= |text| + 1 ensures Kept(s, FeedAll(s, longer[..c]), longer[..c]) {
      if c <= |text| {
        assert longer[..c] == text[..c];
      } else {
        assert longer[..c] == longer && longer[..|text|] == text;
        assert s.current + longer == (s.current + text) + [close];
      }
    }
  }

  lemma {:induction false} ReadPiece(s: Sweep, p: Piece)
    requires Reading(s) && PieceOk(p)
    ensures Reads(s, RenderPiece(p))
    decreases p
  {
    match p
    case Char(c) =>
      AccumulatesOne(s, c);
    case Str(items) =>
      AccumulatesOne(s, '"');
      ReadItems(Feed(s, '"'), items);
      ReadEnclosed(s, '"', RenderItems(items), '"');
    case Braces(inner) =>
      AccumulatesOne(s, '{');
      ReadText(Feed(s, '{'), inner);
      ReadEnclosed(s, '{', Render(inner), '}');
    case Brackets(inner) =>
      AccumulatesOne(s, '[');
      ReadText(Feed(s, '['), inner);
      ReadEnclosed(s, '[', Render(inner), ']');
  }

  lemma {:induction false} ReadText(s: Sweep, t: Text)
    requires Reading(s) && TextOk(t)
    ensures Reads(s, Render(t))
    decreases t
  {
    hide Reads;
    match t
    case Nil =>
      ReadsNothing(s);
    case Cons(p, rest) =>
      var first := RenderPiece(p);
      ReadPiece(s, p);
      ReadText(s.(current := s.current + first), rest);
      ReadsJoin(s, first, Render(rest));
  }

  // ---------------------------------------------------------------- the elements of an array

  /** What precedes an object, and the text between its braces. */
  datatype Element = Element(gap: string, body: Text)

  predicate GapOk(gap: string) {
    forall k | 0 <= k < |gap| :: gap[k] != '{' && gap[k] != '"' && gap[k] != ']'
  }

  predicate ElementOk(e: Element) {
    GapOk(e.gap) && TextOk(e.body)
  }

  function ObjectText(e: Element): string {
    "{" + Render(e.body) + "}"
  }

  function Layout(es: seq<Element>): string {
    if es == [] then "" else es[0].gap + ObjectText(es[0]) + Layout(es[1..])
  }

  function ObjectTexts(es: seq<Element>): seq<string> {
    if es == [] then [] else [ObjectText(es[0])] + ObjectTexts(es[1..])
  }

  /** How many objects lie wholly within the first c characters of the layout. */
  function WhollyWithin(es: seq<Element>, c: int): (n: nat)
    ensures n <= |es|
    decreases |es|
  {
    if es == [] then 0
    else
      var size := |es[0].gap| + |ObjectText(es[0])|;
      if c < size then 0 else 1 + WhollyWithin(es[1..], c - size)
  }

  lemma {:induction false} ObjectTextsLength(es: seq<Element>)
    ensures |ObjectTexts(es)| == |es|
  {
    if es != [] { ObjectTextsLength(es[1..]); }
  }

  function Between(objects: seq<string>): Sweep {
    Sweep(false, false, 0, "", objects, false)
  }

  lemma {:induction false} GapIsSkipped(objects: seq<string>, gap: string)
    requires GapOk(gap)
    ensures FeedAll(Between(objects), gap) == Between(objects)
  {
    if gap != "" {
      GapIsSkipped(objects, gap[..|gap| - 1]);
    }
  }

  /** A cut inside an object yields nothing; the whole object is recovered verbatim. */
  lemma ObjectIsRead(objects: seq<string>, e: Element, c: nat)
    requires TextOk(e.body) && c <= |ObjectText(e)|
    ensures c < |ObjectText(e)| ==> FeedAll(Between(objects), ObjectText(e)[..c]).objects == objects
    ensures FeedAll(Between(objects), ObjectText(e)) == Between(objects + [ObjectText(e)])
  {
    var s, body, text := Between(objects), Render(e.body), ObjectText(e);
    var o := s.(depth := 1, current := "{");
    assert FeedAll(s, "{") == o by { assert "{"[..0] == ""; }
    ReadText(o, e.body);
    FeedJoin(s, "{", body);
    FeedJoin(s, "{" + body, "}");
    var b := FeedAll(o, body);
    assert FeedAll(b, "}") == Feed(b, '}') by { assert "}"[..0] == ""; }
    if 0 < c < |text| {
      assert text[..c] == "{" + body[..c - 1];
      FeedJoin(s, "{", body[..c - 1]);
      assert Kept(o, FeedAll(o, body[..c - 1]), body[..c - 1]);
    }
  }

  /** What may follow the last element: another gap, then nothing or the end of the array. */
  predicate TailOk(gap: string, tail: string) {
    GapOk(gap) && (tail == "" || tail[0] == ']')
  }

  lemma TailYieldsNothing(objects: seq<string>, gap: string, tail: string, c: nat)
    requires TailOk(gap, tail) && c <= |gap + tail|
    ensures FeedAll(Between(objects), (gap + tail)[..c]).objects == objects
  {
    if c <= |gap| {
      assert (gap + tail)[..c] == gap[..c];
      GapIsSkipped(objects, gap[..c]);
    } else {
      var rest := tail[1..c - |gap|];
      assert (gap + tail)[..c] == gap + (tail[..1] + rest);
      GapIsSkipped(objects, gap);
      FeedJoin(Between(objects), gap, tail[..1] + rest);
      FeedJoin(Between(objects), tail[..1], rest);
      assert tail[..1][..0] == "";
      DoneStays(FeedAll(Between(objects), tail[..1]), rest);
    }
  }

  /** A cut within the gap or the object of the first element. */
  lemma CutInFirst(objects: seq<string>, e: Element, rest: string, c: nat)
    requires ElementOk(e) && c < |e.gap| + |ObjectText(e)|
    ensures FeedAll(Between(objects), (e.gap + ObjectText(e) + rest)[..c]).objects == objects
  {
    var all := e.gap + ObjectText(e) + rest;
    if c <= |e.gap| {
      assert all[..c] == e.gap[..c];
      GapIsSkipped(objects, e.gap[..c]);
    } else {
      var d := c - |e.gap|;
      assert all[..c] == e.gap + ObjectText(e)[..d];
      GapIsSkipped(objects, e.gap);
      FeedJoin(Between(objects), e.gap, ObjectText(e)[..d]);
      ObjectIsRead(objects, e, d);
    }
  }

  lemma PastFirst(objects: seq<string>, e: Element, rest: string, c: nat)
    requires ElementOk(e) && |e.gap| + |ObjectText(e)| <= c <= |e.gap| + |ObjectText(e)| + |rest|
    ensures FeedAll(Between(objects), (e.gap + ObjectText(e) + rest)[..c]) ==
            FeedAll(Between(objects + [ObjectText(e)]), rest[..c - |e.gap| - |ObjectText(e)|])
  {
    var d := c - |e.gap| - |ObjectText(e)|;
    assert (e.gap + ObjectText(e) + rest)[..c] == e.gap + (ObjectText(e) + rest[..d]);
    GapIsSkipped(objects, e.gap);
    FeedJoin(Between(objects), e.gap, ObjectText(e) + rest[..d]);
    ObjectIsRead(objects, e, 0);
    FeedJoin(Between(objects), ObjectText(e), rest[..d]);
  }

  lemma FirstOfLayout(es: seq<Element>, more: string)
    requires es != []
    ensures Layout(es) + more == es[0].gap + ObjectText(es[0]) + (Layout(es[1..]) + more)
  {
    hide ObjectText;
  }

  lemma FirstTexts(es: seq<Element>, n: nat)
    requires es != [] && n < |es|
    ensures |ObjectTexts(es)| == |es| && |ObjectTexts(es[1..])| == |es| - 1
    ensures ObjectTexts(es)[..n + 1] == [ObjectText(es[0])] + ObjectTexts(es[1..])[..n]
  {
    hide ObjectText;
    ObjectTextsLength(es[1..]);
  }

  lemma {:induction false} CutElements(objects: seq<string>, es: seq<Element>, gap: string, tail: string, c: nat)
    requires (forall k | 0 <= k < |es| :: ElementOk(es[k])) && TailOk(gap, tail)
    requires c <= |Layout(es) + (gap + tail)|
    ensures |ObjectTexts(es)| == |es|
    ensures FeedAll(Between(objects), (Layout(es) + (gap + tail))[..c]).objects == objects + ObjectTexts(es)[..WhollyWithin(es, c)]
    decreases |es|
  {
    hide FeedAll, ObjectText, ObjectTexts, ElementOk, TailOk, Between;
    ObjectTextsLength(es);
    if es == [] {
      assert Layout(es) + (gap + tail) == gap + tail;
      TailYieldsNothing(objects, gap, tail, c);
    } else {
      hide Layout;
      var e, rest := es[0], Layout(es[1..]) + (gap + tail);
      var size := |e.gap| + |ObjectText(e)|;
      FirstOfLayout(es, gap + tail);
      if c < size {
        CutInFirst(objects, e, rest, c);
      } else {
        PastFirst(objects, e, rest, c);
        CutElements(objects + [ObjectText(e)], es[1..], gap, tail, c - size);
        FirstTexts(es, WhollyWithin(es[1..], c - size));
      }
    }
  }

  // ---------------------------------------------------------------- a keyed array, cut anywhere

  lemma FindInPrefix(text: string, pattern: string, from: nat, c: nat)
    requires c <= |text|
    ensures var r := FindFrom(text, pattern, from);
            FindFrom(text[..c], pattern, from) == if r.Some? && r.value + |pattern| <= c then r else None
  {
    FindFindsFirst(text, pattern, from);
    FindFindsFirst(text[..c], pattern, from);
    forall j: nat ensures OccursAt(text[..c], pattern, j) <==> OccursAt(text, pattern, j) && j + |pattern| <= c {
      if j + |pattern| <= c {
        assert text[..c][j..j + |pattern|] == text[j..j + |pattern|];
      }
    }
  }

  lemma FindInLonger(text: string, more: string, pattern: string, from: nat)
    requires FindFrom(text, pattern, from).Some?
    ensures FindFrom(text + more, pattern, from) == FindFrom(text, pattern, from)
  {
    assert (text + more)[..|text|] == text;
    FindFindsFirst(text, pattern, from);
    FindInPrefix(text + more, pattern, from, |text|);
  }

  /** The first bracket after the key is the one right behind `mid`. */
  lemma FindBracket(before: string, mid: string, after: string)
    requires '[' !in mid
    ensures FindFrom(before + mid + "[" + after, "[", |before|) == Some(|before| + |mid|)
  {
    var text := before + mid + "[" + after;
    FindFindsFirst(text, "[", |before|);
    var b := |before| + |mid|;
    assert text[b..b + 1] == "[";
    assert OccursAt(text, "[", b);
    forall j: nat | |before| <= j < b ensures !OccursAt(text, "[", j) {
      assert text[j..j + 1] == [mid[j - |before|]];
    }
  }

  /** Some text up to a quoted key, more text, and the array. */
  function Keyed(lead: string, key: string, mid: string, inside: string): string {
    lead + ("\"" + key + "\"") + mid + "[" + inside
  }

  function InsideStart(lead: string, key: string, mid: string): nat {
    |lead| + |key| + 2 + |mid| + 1
  }

  /** The quoted key occurs first right behind `lead`, and no bracket stands before the array's own. */
  ghost predicate LeadsTo(lead: string, key: string, mid: string) {
    && (forall i | 0 <= i < |lead| :: !OccursAt(lead + ("\"" + key + "\""), "\"" + key + "\"", i))
    && '[' !in key && '[' !in mid
  }

  lemma KeyedPlainly(lead: string, key: string, mid: string, inside: string)
    ensures Keyed(lead, key, mid, inside) == lead + Quoted(key) + mid + "[" + inside
    ensures InsideStart(lead, key, mid) == |lead| + |Quoted(key)| + |mid| + 1
  {
  }

  lemma NoBracketBefore(lead: string, key: string, mid: string)
    requires LeadsTo(lead, key, mid)
    ensures '[' !in Quoted(key) + mid
  {
  }

  lemma KeyIsFirst(lead: string, key: string, mid: string)
    requires LeadsTo(lead, key, mid)
    ensures FindFrom(lead + Quoted(key), Quoted(key), 0) == Some(|lead|)
  {
    FindFindsFirst(lead + Quoted(key), Quoted(key), 0);
    assert (lead + Quoted(key))[|lead|..] == Quoted(key);
    assert OccursAt(lead + Quoted(key), Quoted(key), |lead|);
    hide FindFrom;
  }

  lemma KeyIsFound(lead: string, key: string, mid: string, inside: string)
    requires LeadsTo(lead, key, mid)
    ensures FindFrom(Keyed(lead, key, mid, inside), Quoted(key), 0) == Some(|lead|)
    ensures FindFrom(Keyed(lead, key, mid, inside), "[", |lead|) == Some(InsideStart(lead, key, mid) - 1)
  {
    hide FindFrom, Quoted, Keyed, InsideStart, LeadsTo;
    KeyIsFirst(lead, key, mid);
    NoBracketBefore(lead, key, mid);
    KeyedPlainly(lead, key, mid, inside);
    var q := Quoted(key);
    Regroup(lead, q, mid, "[", inside);
    FindInLonger(lead + q, mid + "[" + inside, q, 0);
    FindBracket(lead, q + mid, inside);
  }

  lemma Regroup(a: string, b: string, c: string, d: string, e: string)
    ensures a + b + c + d + e == (a + b) + (c + d + e)
    ensures a + b + c + d + e == a + (b + c) + d + e
  {
  }

  /** The array is found exactly when the cut leaves its opening bracket. */
  lemma ArrayStartOfCut(lead: string, key: string, mid: string, inside: string, cut: nat)
    requires LeadsTo(lead, key, mid) && cut <= |Keyed(lead, key, mid, inside)|
    ensures var start := InsideStart(lead, key, mid);
            ArrayStart(Keyed(lead, key, mid, inside)[..cut], key) == if cut < start then None else Some(start)
  {
    hide FindFrom, Quoted, Keyed, InsideStart, LeadsTo;
    KeyedPlainly(lead, key, mid, inside);
    var whole := Keyed(lead, key, mid, inside);
    KeyIsFound(lead, key, mid, inside);
    FindInPrefix(whole, Quoted(key), 0, cut);
    FindInPrefix(whole, "[", |lead|, cut);
  }

  lemma {:induction false} NothingWithin(es: seq<Element>, c: int)
    requires c < 0
    ensures WhollyWithin(es, c) == 0
  {
  }

  /**
   For every list of objects laid out as the array of a key, and every cut of the text, the result
   is exactly the list of objects that lie wholly before the cut, verbatim and in order.
   */
  lemma TruncationRecovery(lead: string, key: string, mid: string, es: seq<Element>, gap: string, tail: string, cut: nat)
    requires LeadsTo(lead, key, mid)
    requires (forall k | 0 <= k < |es| :: ElementOk(es[k])) && TailOk(gap, tail)
    requires cut <= |Keyed(lead, key, mid, Layout(es) + (gap + tail))|
    ensures |ObjectTexts(es)| == |es|
    ensures Collected(Keyed(lead, key, mid, Layout(es) + (gap + tail))[..cut], key) ==
            ObjectTexts(es)[..WhollyWithin(es, cut - InsideStart(lead, key, mid))]
  {
    hide ArrayStart, FeedAll, LeadsTo, TailOk, Layout;
    var inside := Layout(es) + (gap + tail);
    var whole, start := Keyed(lead, key, mid, inside), InsideStart(lead, key, mid);
    ArrayStartOfCut(lead, key, mid, inside, cut);
    ObjectTextsLength(es);
    if cut < start {
      NothingWithin(es, cut - start);
    } else {
      assert whole[..cut][start..] == inside[..cut - start];
      CutElements([], es, gap, tail, cut - start);
    }
  }
}
