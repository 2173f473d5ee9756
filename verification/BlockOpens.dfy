/** Which lines open an entry, and that a line opens no other entry besides. */
module BlockOpens {
  import opened BlockEdit
  import opened Blocks
  import opened Scans
  import opened Texts
  import opened Wrappers

  /** A key's line is the key at the keys' depth, a colon, and anything or nothing. */
  lemma KeyLineIff(line: string, indent: nat, key: string)
    ensures KeyLine(line, indent, key) <==> exists rest :: line == Pad(indent) + key + ":" + rest
  {
    var head := Pad(indent) + key + ":";
    if KeyLine(line, indent, key) {
      assert line == head + line[|head|..];
    }
  }

  /** A line's depth is the white space before it. */
  lemma {:induction false} DepthIs(line: string)
    ensures Depth(line) <= |line| && Spaces(line[..Depth(line)]) && line[Depth(line)..] == StripLeft(line)
    ensures StripLeft(line) == "" || !IsSpace(StripLeft(line)[0])
  {
    if line != "" && IsSpace(line[0]) {
      DepthIs(line[1..]);
      assert line == [line[0]] + line[1..];
    }
  }

  /** A value goes on in a line that is deeper than the keys, or at their depth begins with a dash and a space. */
  lemma ContinuesIff(line: string, indent: nat)
    ensures Continues(line, indent) <==>
              |line| - |StripLeft(line)| > indent
              || (|line| - |StripLeft(line)| == indent && exists rest :: StripLeft(line) == "- " + rest)
  {
    DepthIs(line);
    if "- " <= StripLeft(line) {
      assert StripLeft(line) == "- " + StripLeft(line)[2..];
    }
  }

  /** The entry the edit finds: from the first line that opens it, over all that are neither blank nor to the left of
      its keys, which stand two places in from its dash, to the first that is. */
  lemma EntryIs(lines: seq<string>, id: string, at: Place)
    ensures Find(Yaml(id), lines) == Some(at) <==>
              && at.start < at.end <= |lines|
              && Opens(lines[at.start], id) && (forall m :: 0 <= m < at.start ==> !Opens(lines[m], id))
              && at.indent == Depth(lines[at.start]) + 2
              && (forall m :: at.start < m < at.end ==> !Spaces(lines[m]) && Depth(lines[m]) >= at.indent)
              && (at.end < |lines| ==> Spaces(lines[at.end]) || Depth(lines[at.end]) < at.indent)
  {
    forall m | 0 <= m < |lines|
      ensures Inside(lines[m], at.indent) <==> !Spaces(lines[m]) && Depth(lines[m]) >= at.indent
    {
      NothingLeftIff(lines[m]);
    }
    if Find(Yaml(id), lines) == Some(at) {
      FoundIs(lines, id, at);
    } else if at.start < at.end <= |lines| && Opens(lines[at.start], id) && at.indent == Depth(lines[at.start]) + 2
              && (forall m :: 0 <= m < at.start ==> !Opens(lines[m], id))
              && (forall m :: at.start < m < at.end ==> Inside(lines[m], at.indent))
              && (at.end < |lines| ==> !Inside(lines[at.end], at.indent)) {
      FindIs(Yaml(id), lines, at);
    }
  }

  lemma FoundIs(lines: seq<string>, id: string, at: Place)
    requires Find(Yaml(id), lines) == Some(at)
    ensures Opens(lines[at.start], id) && (forall m :: 0 <= m < at.start ==> !Opens(lines[m], id))
    ensures at.indent == Depth(lines[at.start]) + 2
    ensures forall m :: at.start < m < at.end ==> Inside(lines[m], at.indent)
    ensures at.end < |lines| ==> !Inside(lines[at.end], at.indent)
  {
    NoneBefore(lines, 0, |lines|, Yaml(id).opens);
    NoneBefore(lines, at.start + 1, |lines|, Beyond(Yaml(id), at.indent));
    forall m | at.start < m < at.end ensures Inside(lines[m], at.indent) {
      assert lines[m] !in Beyond(Yaml(id), at.indent);
    }
  }

  /** A key that no line of the entry has is added before the first line of its sources, or at its end. */
  lemma AddedBeforeSources(lines: seq<string>, id: string, at: Place, key: string, scalar: string, s: nat)
    requires Find(Yaml(id), lines) == Some(at) && at.start < s <= at.end
    requires forall m :: at.start < m < at.end ==> !KeyLine(lines[m], at.indent, key)
    requires forall m :: at.start < m < s ==> !KeyLine(lines[m], at.indent, "sources")
    requires s < at.end ==> KeyLine(lines[s], at.indent, "sources")
    ensures Edited(lines, id, key, scalar)
         == Some(lines[..s] + [Pad(at.indent) + key + ": " + scalar] + lines[s..])
  {
    FirstIs(lines, at.start + 1, at.end, At(Key(key), at.indent), at.end);
    FirstIs(lines, at.start + 1, at.end, At(Key("sources"), at.indent), s);
    SetInAt(Yaml(id), lines, at, s, s, Key(key), Key("sources"), Line(key, scalar));
  }

  /** A key that the entry has is set in the first line that has it, in place of all lines after it that go on with its
      value, as far as the edit sees. */
  lemma SetInPlace(lines: seq<string>, id: string, at: Place, key: string, scalar: string, i: nat, j: nat)
    requires Find(Yaml(id), lines) == Some(at) && at.start < i < j <= at.end
    requires KeyLine(lines[i], at.indent, key)
    requires forall m :: at.start < m < i ==> !KeyLine(lines[m], at.indent, key)
    requires forall m :: i < m < j ==> Continues(lines[m], at.indent)
    requires j < at.end ==> !Continues(lines[j], at.indent)
    ensures Edited(lines, id, key, scalar)
         == Some(lines[..i] + [Pad(at.indent) + key + ": " + scalar] + lines[j..])
  {
    GapInPlace(lines, id, at, key, i, j);
    SetInAt(Yaml(id), lines, at, i, j, Key(key), Key("sources"), Line(key, scalar));
  }

  lemma GapInPlace(lines: seq<string>, id: string, at: Place, key: string, i: nat, j: nat)
    requires at.start < i < j <= at.end <= |lines| && KeyLine(lines[i], at.indent, key)
    requires forall m :: at.start < m < i ==> !KeyLine(lines[m], at.indent, key)
    requires forall m :: i < m < j ==> Continues(lines[m], at.indent)
    requires j < at.end ==> !Continues(lines[j], at.indent)
    ensures Gap(Yaml(id), lines, at, Key(key), Key("sources")) == (i, j)
  {
    FirstIs(lines, at.start + 1, at.end, At(Key(key), at.indent), i);
    FirstIs(lines, i + 1, at.end, At(Afresh(), at.indent), j);
  }

  /** An id as entries have: neither end is white space, and no quote is in it. */
  predicate GoodId(id: string) {
    Plain(id) && '\'' !in id && '"' !in id
  }

  /** The id, between the quotes it may have, at any depth, and white space behind it. */
  lemma WrittenOpens(n: nat, open: nat, close: nat, id: string, behind: string)
    requires open < 3 && close < 3 && Spaces(behind)
    ensures Opens(Pad(n) + ("- id: " + QUOTES[open] + id + QUOTES[close] + behind), id)
    ensures Depth(Pad(n) + ("- id: " + QUOTES[open] + id + QUOTES[close] + behind)) == n
  {
    var quoted := QUOTES[open] + id + QUOTES[close];
    var rest := "- id: " + QUOTES[open] + id + QUOTES[close] + behind;
    assert rest == "- id: " + (quoted + behind);
    PadDepth(n, rest);
    assert rest[6..] == quoted + behind && rest[6..][|quoted|..] == behind;
    NothingLeftIff(behind);
  }

  /** What stands where the id does: the id, its quotes, and white space. */
  ghost predicate Stands(text: string, id: string) {
    exists i, j :: 0 <= i < 3 && 0 <= j < 3 && QUOTES[i] + id + QUOTES[j] <= text
                   && Spaces(text[|QUOTES[i] + id + QUOTES[j]|..])
  }

  lemma OpensIff(line: string, id: string)
    ensures Opens(line, id) <==> "- id: " <= StripLeft(line) && Stands(StripLeft(line)[6..], id)
  {
    var rest := StripLeft(line);
    if "- id: " <= rest {
      forall i, j | 0 <= i < 3 && 0 <= j < 3 && QUOTES[i] + id + QUOTES[j] <= rest[6..]
        ensures Strip(rest[6..][|QUOTES[i] + id + QUOTES[j]|..]) == ""
           <==> Spaces(rest[6..][|QUOTES[i] + id + QUOTES[j]|..])
      {
        NothingLeftIff(rest[6..][|QUOTES[i] + id + QUOTES[j]|..]);
      }
    }
  }

  predicate Quote(c: char) {
    c == '\'' || c == '"'
  }

  predicate AtMostAQuote(q: string) {
    q == "" || (|q| == 1 && Quote(q[0]))
  }

  /** A text laid out as an id, its quotes, and white space. */
  predicate Laid(text: string, open: string, id: string, close: string, behind: string) {
    text == open + (id + (close + behind)) && AtMostAQuote(open) && AtMostAQuote(close) && Spaces(behind)
  }

  lemma QuotesAre(i: nat)
    requires i < 3
    ensures AtMostAQuote(QUOTES[i])
  {
    assert QUOTES[0] == "" && QUOTES[1] == "'" && QUOTES[2] == "\"";
  }

  lemma LaidOut(text: string, open: string, id: string, close: string)
    requires AtMostAQuote(open) && AtMostAQuote(close)
    requires open + id + close <= text && Spaces(text[|open + id + close|..])
    ensures Laid(text, open, id, close, text[|open + id + close|..])
  {
    var quoted, behind := open + id + close, text[|open + id + close|..];
    assert text == quoted + behind;
    assert quoted + behind == open + (id + (close + behind));
  }

  lemma StandsLaid(text: string, id: string) returns (open: string, close: string, behind: string)
    requires Stands(text, id)
    ensures Laid(text, open, id, close, behind)
  {
    var i, j :| 0 <= i < 3 && 0 <= j < 3 && QUOTES[i] + id + QUOTES[j] <= text
                && Spaces(text[|QUOTES[i] + id + QUOTES[j]|..]);
    QuotesAre(i);
    QuotesAre(j);
    open, close := QUOTES[i], QUOTES[j];
    behind := text[|open + id + close|..];
    LaidOut(text, open, id, close);
  }

  lemma QuoteFirst(text: string, open: string, id: string, close: string, behind: string)
    requires Laid(text, open, id, close, behind) && GoodId(id)
    ensures text != "" && (open != "" <==> Quote(text[0]))
  {
    assert id[0] in id;
    if open == "" {
      assert text[0] == id[0];
    } else {
      assert text[0] == open[0];
    }
  }

  lemma LaidAt(text: string, open: string, id: string, close: string, behind: string, k: nat)
    requires Laid(text, open, id, close, behind)
    ensures |text| == |open| + |id| + |close| + |behind|
    ensures k < |id| ==> text[|open| + k] == id[k]
    ensures |id| <= k < |text| - |open| ==> text[|open| + k] == (close + behind)[k - |id|]
  {
  }

  /** A line opens one entry only. */
  lemma OneEntryALine(line: string, a: string, b: string)
    requires GoodId(a) && GoodId(b) && Opens(line, a) && Opens(line, b)
    ensures a == b
  {
    OpensIff(line, a);
    OpensIff(line, b);
    OneIdStands(StripLeft(line)[6..], a, b);
  }

  lemma OneIdStands(text: string, a: string, b: string)
    requires GoodId(a) && GoodId(b) && Stands(text, a) && Stands(text, b)
    ensures a == b
  {
    var open, close, behind := StandsLaid(text, a);
    var open', close', behind' := StandsLaid(text, b);
    SameId(text, open, a, close, behind, open', b, close', behind');
  }

  lemma SameId(text: string, open: string, a: string, close: string, behind: string,
               open': string, b: string, close': string, behind': string)
    requires GoodId(a) && GoodId(b)
    requires Laid(text, open, a, close, behind) && Laid(text, open', b, close', behind')
    ensures a == b
  {
    ShorterStops(text, open, a, close, behind, open', b, close', behind');
    ShorterStops(text, open', b, close', behind', open, a, close, behind);
    forall k | 0 <= k < |a| ensures a[k] == b[k] {
      LaidAt(text, open, a, close, behind, k);
      LaidAt(text, open', b, close', behind', k);
    }
  }

  lemma ShorterStops(text: string, open: string, a: string, close: string, behind: string,
                     open': string, b: string, close': string, behind': string)
    requires GoodId(a) && GoodId(b)
    requires Laid(text, open, a, close, behind) && Laid(text, open', b, close', behind')
    ensures |open| == |open'| && |a| >= |b|
  {
    QuoteFirst(text, open, a, close, behind);
    QuoteFirst(text, open', b, close', behind');
    if |a| < |b| {
      LaidAt(text, open, a, close, behind, |a|);
      LaidAt(text, open', b, close', behind', |a|);
      assert b[|a|] in b;
      LaidAt(text, open, a, close, behind, |b| - 1);
      LaidAt(text, open', b, close', behind', |b| - 1);
      assert false;
    }
  }
}
