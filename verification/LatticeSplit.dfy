/** Splitting a text at a separator outside brackets and quotes. */
module LatticeSplit {
  import opened Texts
  import opened Wrappers

  /** The pieces so far, how many brackets are open, the piece being read, and the quote it is inside of. */
  datatype Scan = Scan(out: seq<string>, depth: int, cur: string, quote: Option<char>)

  function Step(s: Scan, ch: char, sep: char): Scan {
    if s.quote.Some? then
      s.(cur := s.cur + [ch], quote := if s.quote.value == ch then None else s.quote)
    else
      var t :=
        if ch in "\"'" then s.(quote := Some(ch))
        else if ch in "([{" then s.(depth := s.depth + 1)
        else if ch in ")]}" then s.(depth := s.depth - 1)
        else s;
      if ch == sep && t.depth == 0 then t.(out := t.out + [t.cur], cur := "")
      else t.(cur := t.cur + [ch])
  }

  function Run(s: Scan, text: string, sep: char): Scan
    decreases text
  {
    if text == "" then s else Run(Step(s, text[0], sep), text[1..], sep)
  }

  const BEGIN := Scan([], 0, "", None)

  /** The pieces before they are stripped; a blank last one is dropped. */
  function Pieces(text: string, sep: char): seq<string> {
    var s := Run(BEGIN, text, sep);
    if Strip(s.cur) != "" then s.out + [s.cur] else s.out
  }

  function StripAll(pieces: seq<string>): seq<string> {
    if pieces == [] then [] else [Strip(pieces[0])] + StripAll(pieces[1..])
  }

  function SplitTop(text: string, sep: char): seq<string> {
    StripAll(Pieces(text, sep))
  }

  lemma {:induction false} RunOn(s: Scan, a: string, b: string, sep: char)
    ensures Run(s, a + b, sep) == Run(Run(s, a, sep), b, sep)
    decreases a
  {
    if a == "" {
      assert a + b == b;
    } else {
      assert (a + b)[0] == a[0] && (a + b)[1..] == a[1..] + b;
      RunOn(Step(s, a[0], sep), a[1..], b, sep);
    }
  }

  lemma {:induction false} StripAllOn(pieces: seq<string>, last: string)
    ensures StripAll(pieces + [last]) == StripAll(pieces) + [Strip(last)]
  {
    if pieces == [] {
    } else {
      assert (pieces + [last])[1..] == pieces[1..] + [last];
      StripAllOn(pieces[1..], last);
    }
  }

  /** The loop of the program, character by character. */
  method Split(text: string, sep: char) returns (out: seq<string>)
    ensures out == SplitTop(text, sep)
  {
    var pieces: seq<string>, depth: int, cur: string, quote: Option<char> := [], 0, "", None;
    for i := 0 to |text|
      invariant Scan(pieces, depth, cur, quote) == Run(BEGIN, text[..i], sep)
    {
      var ch := text[i];
      assert text[..i + 1] == text[..i] + [ch];
      RunOn(BEGIN, text[..i], [ch], sep);
      assert Run(Run(BEGIN, text[..i], sep), [ch], sep) == Step(Run(BEGIN, text[..i], sep), ch, sep);
      if quote.Some? {
        cur := cur + [ch];
        if ch == quote.value {
          quote := None;
        }
        continue;
      }
      if ch in "\"'" {
        quote := Some(ch);
      } else if ch in "([{" {
        depth := depth + 1;
      } else if ch in ")]}" {
        depth := depth - 1;
      }
      if ch == sep && depth == 0 {
        pieces := pieces + [cur];
        cur := "";
      } else {
        cur := cur + [ch];
      }
    }
    assert text[..|text|] == text;
    if Strip(cur) != "" {
      pieces := pieces + [cur];
    }
    out := [];
    for i := 0 to |pieces|
      invariant out == StripAll(pieces[..i])
    {
      assert pieces[..i + 1] == pieces[..i] + [pieces[i]];
      StripAllOn(pieces[..i], pieces[i]);
      out := out + [Strip(pieces[i])];
    }
    assert pieces[..|pieces|] == pieces;
  }

  // ------------------------------------------------------------------ joining

  /** Each piece with the separator after it. */
  function Ended(pieces: seq<string>, sep: char): string {
    if pieces == [] then "" else Ended(pieces[..|pieces| - 1], sep) + pieces[|pieces| - 1] + [sep]
  }

  /** The pieces with the separator between them. */
  function Join(pieces: seq<string>, sep: char): string {
    if pieces == [] then "" else Ended(pieces[..|pieces| - 1], sep) + pieces[|pieces| - 1]
  }

  /** Nothing is lost while scanning: what was split off and the piece being read are the text read. */
  lemma {:induction false} RunKeeps(s: Scan, text: string, sep: char)
    ensures var t := Run(s, text, sep);
            Ended(t.out, sep) + t.cur == Ended(s.out, sep) + s.cur + text
    decreases text
  {
    if text != "" {
      var t := Step(s, text[0], sep);
      assert Ended(t.out, sep) + t.cur == Ended(s.out, sep) + s.cur + [text[0]] by {
        if t.out != s.out {
          assert t.out[..|t.out| - 1] == s.out;
        }
      }
      RunKeeps(t, text[1..], sep);
      assert [text[0]] + text[1..] == text;
    }
  }

  /** For any text: its pieces joined are the text again, but for a last separator and the blank after it. */
  lemma PiecesJoinBack(text: string, sep: char)
    ensures var pieces := Pieces(text, sep);
            || text == Join(pieces, sep)
            || exists blank :: Strip(blank) == "" && text == Ended(pieces, sep) + blank
  {
    var s := Run(BEGIN, text, sep);
    RunKeeps(BEGIN, text, sep);
    if Strip(s.cur) != "" {
      assert (s.out + [s.cur])[..|s.out|] == s.out;
    }
  }

  // ------------------------------------------------------------------ texts that are split where they were joined

  /** A text by its shape: plain characters, quoted runs and brackets with anything balanced inside. */
  datatype Chunk =
    | Char(c: char)
    | Quoted(quote: char, body: string)
    | Bracketed(open: char, inner: seq<Chunk>, close: char)

  predicate Special(c: char) {
    c in "\"'" || c in "([{" || c in ")]}"
  }

  /** At the top the separator may not stand as a plain character. */
  predicate WellFormed(chunk: Chunk, sep: char, top: bool) {
    match chunk
    case Char(c) => !Special(c) && (top ==> c != sep)
    case Quoted(quote, body) => quote in "\"'" && quote !in body
    case Bracketed(open, inner, close) => open in "([{" && close in ")]}" && AllWellFormed(inner, sep, false)
  }

  predicate AllWellFormed(chunks: seq<Chunk>, sep: char, top: bool) {
    chunks == [] || (WellFormed(chunks[0], sep, top) && AllWellFormed(chunks[1..], sep, top))
  }

  function Render(chunk: Chunk): string {
    match chunk
    case Char(c) => [c]
    case Quoted(quote, body) => [quote] + (body + [quote])
    case Bracketed(open, inner, close) => [open] + (RenderAll(inner) + [close])
  }

  function RenderAll(chunks: seq<Chunk>): string {
    if chunks == [] then "" else Render(chunks[0]) + RenderAll(chunks[1..])
  }

  /** Read to the end of a piece: nothing split off, no bracket and no quote left open. */
  ghost predicate ReadWhole(s: Scan, text: string, sep: char) {
    Run(s, text, sep) == s.(cur := s.cur + text)
  }

  lemma ReadOn(s: Scan, a: string, b: string, sep: char)
    requires ReadWhole(s, a, sep) && ReadWhole(s.(cur := s.cur + a), b, sep)
    ensures ReadWhole(s, a + b, sep)
  {
    RunOn(s, a, b, sep);
    assert s.cur + a + b == s.cur + (a + b);
  }

  lemma {:induction false} QuotedRead(s: Scan, body: string, sep: char)
    requires s.quote.Some? && s.quote.value !in body
    ensures ReadWhole(s, body, sep)
    decreases body
  {
    if body == "" {
      assert s.cur + body == s.cur;
    } else {
      QuotedRead(Step(s, body[0], sep), body[1..], sep);
      assert s.cur + [body[0]] + body[1..] == s.cur + body;
    }
  }

  lemma {:induction false} ChunkRead(s: Scan, chunk: Chunk, sep: char)
    requires WellFormed(chunk, sep, s.depth == 0) && s.quote.None? && s.depth >= 0 && !Special(sep)
    ensures ReadWhole(s, Render(chunk), sep)
    decreases chunk
  {
    match chunk
    case Char(c) => assert Run(s, [c], sep) == Run(Step(s, c, sep), [], sep);
    case Quoted(quote, body) =>
      var entered := Step(s, quote, sep);
      QuotedRead(entered, body, sep);
      Closing(s, entered, quote, body, quote, sep);
    case Bracketed(open, inner, close) =>
      var entered := Step(s, open, sep);
      ChunksRead(entered, inner, sep);
      Closing(s, entered, open, RenderAll(inner), close, sep);
  }

  /** The first character, what is inside, and the character that closes. */
  lemma Closing(s: Scan, entered: Scan, first: char, inside: string, last: char, sep: char)
    requires entered == Step(s, first, sep) && entered.cur == s.cur + [first]
    requires ReadWhole(entered, inside, sep)
    requires Step(entered.(cur := entered.cur + inside), last, sep) == s.(cur := entered.cur + inside + [last])
    ensures ReadWhole(s, [first] + (inside + [last]), sep)
  {
    var text := [first] + (inside + [last]);
    assert text[0] == first && text[1..] == inside + [last];
    RunOn(entered, inside, [last], sep);
    var within := entered.(cur := entered.cur + inside);
    assert Run(within, [last], sep) == Run(Step(within, last, sep), [], sep);
    assert entered.cur + inside + [last] == s.cur + text;
  }

  lemma {:induction false} ChunksRead(s: Scan, chunks: seq<Chunk>, sep: char)
    requires AllWellFormed(chunks, sep, s.depth == 0) && s.quote.None? && s.depth >= 0 && !Special(sep)
    ensures ReadWhole(s, RenderAll(chunks), sep)
    decreases chunks
  {
    if chunks == [] {
      assert s.cur + "" == s.cur;
    } else {
      ChunkRead(s, chunks[0], sep);
      ChunksRead(s.(cur := s.cur + Render(chunks[0])), chunks[1..], sep);
      ReadOn(s, Render(chunks[0]), RenderAll(chunks[1..]), sep);
    }
  }

  function Rendered(parts: seq<seq<Chunk>>): seq<string> {
    if parts == [] then [] else Rendered(parts[..|parts| - 1]) + [RenderAll(parts[|parts| - 1])]
  }

  predicate PartsOk(parts: seq<seq<Chunk>>, sep: char) {
    forall i :: 0 <= i < |parts| ==>
      AllWellFormed(parts[i], sep, true) && Strip(RenderAll(parts[i])) == RenderAll(parts[i])
  }

  lemma {:induction false} EndedSplits(parts: seq<seq<Chunk>>, sep: char)
    requires PartsOk(parts, sep) && !Special(sep)
    ensures Run(BEGIN, Ended(Rendered(parts), sep), sep) == Scan(Rendered(parts), 0, "", None)
    ensures StripAll(Rendered(parts)) == Rendered(parts)
  {
    if parts != [] {
      var front, last := parts[..|parts| - 1], RenderAll(parts[|parts| - 1]);
      EndedSplits(front, sep);
      var done := Scan(Rendered(front), 0, "", None);
      ChunksRead(done, parts[|parts| - 1], sep);
      assert Rendered(parts)[..|Rendered(parts)| - 1] == Rendered(front);
      var before := Ended(Rendered(front), sep);
      RunOn(BEGIN, before, last, sep);
      RunOn(BEGIN, before + last, [sep], sep);
      assert "" + last == last;
      var read := Scan(Rendered(front), 0, last, None);
      assert Run(read, [sep], sep) == Run(Step(read, sep, sep), [], sep);
      StripAllOn(Rendered(front), last);
    }
  }

  /** The joined text read up to its end: every part but the last is out, and the last is what is held. */
  lemma LastStays(parts: seq<seq<Chunk>>, sep: char)
    requires PartsOk(parts, sep) && !Special(sep) && parts != []
    ensures Run(BEGIN, Join(Rendered(parts), sep), sep)
         == Scan(Rendered(parts[..|parts| - 1]), 0, RenderAll(parts[|parts| - 1]), None)
  {
    var front, last := parts[..|parts| - 1], RenderAll(parts[|parts| - 1]);
    EndedSplits(front, sep);
    ChunksRead(Scan(Rendered(front), 0, "", None), parts[|parts| - 1], sep);
    assert Rendered(parts)[..|Rendered(parts)| - 1] == Rendered(front);
    RunOn(BEGIN, Ended(Rendered(front), sep), last, sep);
    assert "" + last == last;
  }

  /** Parts that are stripped, balanced and closed, without the separator at their top and the last of them
      not empty, are got back from their joined text. */
  lemma SplitUndoesJoin(parts: seq<seq<Chunk>>, sep: char)
    requires PartsOk(parts, sep) && !Special(sep)
    requires parts != [] ==> RenderAll(parts[|parts| - 1]) != ""
    ensures SplitTop(Join(Rendered(parts), sep), sep) == Rendered(parts)
  {
    if parts == [] {
      assert Strip("") == "";
    } else {
      LastStays(parts, sep);
      EndedSplits(parts, sep);
    }
  }
}
