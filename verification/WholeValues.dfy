/**
 What an edit of one key does to whole values. A value may hold blank lines, and the entry seems to the edit to end
 at the first of them: so it can leave the rest of a value behind, or cut one in two. Exactly when it does is told
 from the lines before the edit.
 */
module WholeValues {
  import opened Blocks
  import opened Scans
  import opened WholeReads
  import opened Wrappers

  /** A blank line is not of the entry as the edit sees it. */
  ghost predicate BlankEnds<L(!new)>(f: Format<L>) {
    forall p :: p in f.inside ==> p.0 !in f.blank
  }

  /** The lines that end a value: neither blank nor going on with it. */
  ghost function Anew<L(!new)>(f: Format<L>, indent: nat): iset<L> {
    iset line | (line, indent) in f.afresh && line !in f.blank
  }

  ghost function Outside<L(!new)>(f: Format<L>, indent: nat): iset<L> {
    iset line | (line, indent) !in Within(f)
  }

  ghost function Filled<L(!new)>(f: Format<L>): iset<L> {
    iset line | line !in f.blank
  }

  /** Where an entry really ends. */
  ghost function OwnEnd<L(!new)>(f: Format<L>, lines: seq<L>, at: Place): (e: nat)
    requires at.start < at.end <= |lines|
    ensures at.start < e <= |lines|
  {
    First(lines, at.start + 1, |lines|, Outside(f, at.indent))
  }

  ghost function WholeIn<L(!new)>(f: Format<L>, lines: seq<L>, start: nat, indent: nat, e: nat, key: iset<(L, nat)>)
    : Option<seq<L>>
    requires start < e <= |lines|
  {
    ReadWhole(lines, start + 1, e, At(key, indent), Anew(f, indent), f.blank)
  }

  /** A key's whole value: its first line in the entry and all that goes on with it, blank lines included, but for
      those at the end. */
  ghost function Whole<L(!new)>(f: Format<L>, lines: seq<L>, key: iset<(L, nat)>): Option<seq<L>> {
    match Find(f, lines)
    case None => None
    case Some(at) => WholeIn(f, lines, at.start, at.indent, OwnEnd(f, lines, at), key)
  }

  /** Where the entry seems to end, it goes on with a value: the next line that is not blank is no key's. */
  ghost predicate GoesOn<L(!new)>(f: Format<L>, lines: seq<L>, at: Place)
    requires at.start < at.end <= |lines|
  {
    var n := First(lines, at.end, |lines|, Filled(f));
    n < |lines| && (lines[n], at.indent) in Within(f) && (lines[n], at.indent) !in f.afresh
  }

  /** The edit sees a key's value to where the entry seems to end. */
  ghost predicate IsLast<L(!new)>(f: Format<L>, lines: seq<L>, at: Place, key: iset<(L, nat)>)
    requires at.start < at.end <= |lines|
  {
    var k := KeyAt(lines, at, key);
    k < at.end && ValueEnd(lines, at, k + 1, f.afresh) == at.end
  }

  /** What the edit sees of a key's value. */
  ghost function SeenValue<L(!new)>(f: Format<L>, lines: seq<L>, at: Place, key: iset<(L, nat)>): seq<L>
    requires at.start < at.end <= |lines| && KeyAt(lines, at, key) < at.end
  {
    var k := KeyAt(lines, at, key);
    lines[k..ValueEnd(lines, at, k + 1, f.afresh)]
  }

  // ------------------------------------------------------------------ the two ends of an entry

  /** What the edit sees of an entry is all its own, and not blank. */
  lemma Seen<L(!new)>(f: Format<L>, lines: seq<L>, at: Place)
    requires Find(f, lines) == Some(at) && BlankEnds(f)
    ensures forall k :: at.start < k < at.end ==> lines[k] in At(Within(f), at.indent) && lines[k] !in f.blank
    ensures at.end <= OwnEnd(f, lines, at)
  {
    NoneBefore(lines, at.start + 1, |lines|, Beyond(f, at.indent));
    forall k | at.start < k < at.end ensures lines[k] in At(Within(f), at.indent) && lines[k] !in f.blank {
      assert lines[k] !in Beyond(f, at.indent);
      assert (lines[k], at.indent) in f.inside;
    }
    NoneBefore(lines, at.start + 1, |lines|, Outside(f, at.indent));
  }

  /** Where the entry seems to end there are but blank lines up to a line that starts anew, or the real end, exactly
      when it does not go on with a value. */
  lemma BlankOnIff<L(!new)>(f: Format<L>, lines: seq<L>, at: Place)
    requires at.start < at.end <= |lines| && at.end <= OwnEnd(f, lines, at)
    ensures BlankOn(lines, at.end, OwnEnd(f, lines, at), Anew(f, at.indent), f.blank) <==> !GoesOn(f, lines, at)
  {
    var e, n := OwnEnd(f, lines, at), First(lines, at.end, |lines|, Filled(f));
    var p := First(lines, at.end, e, Anew(f, at.indent));
    NoneBefore(lines, at.end, |lines|, Filled(f));
    NoneBefore(lines, at.end, e, Anew(f, at.indent));
    NoneBefore(lines, at.start + 1, |lines|, Outside(f, at.indent));
    if n < p {
      assert lines[n] == lines[at.end..p][n - at.end];
      assert lines[n] !in Outside(f, at.indent) && lines[n] !in Anew(f, at.indent);
    } else {
      forall x | x in lines[at.end..p] ensures x in f.blank {
        var m :| 0 <= m < p - at.end && lines[at.end..p][m] == x;
        assert lines[at.end + m] !in Filled(f);
      }
    }
  }

  /** As far as the edit sees, values end at the same lines either way. */
  lemma SameEnd<L(!new)>(f: Format<L>, lines: seq<L>, at: Place, k: nat)
    requires at.start < k <= at.end <= |lines| && forall m :: at.start < m < at.end ==> lines[m] !in f.blank
    ensures First(lines, k, at.end, Anew(f, at.indent)) == ValueEnd(lines, at, k, f.afresh)
  {
    NoneBefore(lines, k, at.end, At(f.afresh, at.indent));
    FirstIs(lines, k, at.end, Anew(f, at.indent), ValueEnd(lines, at, k, f.afresh));
  }

  lemma WholeIs<L(!new)>(f: Format<L>, lines: seq<L>, at: Place, e: nat, key: iset<(L, nat)>)
    requires Find(f, lines) == Some(at) && OwnEnd(f, lines, at) == e
    ensures Whole(f, lines, key) == WholeIn(f, lines, at.start, at.indent, e, key)
  {
  }

  lemma OwnEndMoves<L(!new)>(f: Format<L>, lines: seq<L>, at: Place, i: nat, j: nat, line: L)
    requires at.start < i <= j <= at.end <= |lines| && (line, at.indent) in f.inside
    requires at.end <= OwnEnd(f, lines, at)
    ensures OwnEnd(f, Spliced(lines, i, j, line), Moved(at, i, j)) == OwnEnd(f, lines, at) - (j - i) + 1
  {
    FirstBeyond(lines, i, j, line, at.start + 1, |lines|, Outside(f, at.indent));
  }

  /** The entry is found where it was, and its real end moves as the seeming one does: a value is then read so. */
  lemma WholeAfter<L(!new)>(f: Format<L>, lines: seq<L>, at: Place, i: nat, j: nat, line: L, key: iset<(L, nat)>)
    requires Find(f, lines) == Some(at) && at.start < i <= j <= at.end && (line, at.indent) in f.inside
    requires at.end <= OwnEnd(f, lines, at)
    ensures Whole(f, Spliced(lines, i, j, line), key)
         == WholeIn(f, Spliced(lines, i, j, line), at.start, at.indent, OwnEnd(f, lines, at) - (j - i) + 1, key)
  {
    FoundAgain(f, lines, i, j, line);
    OwnEndMoves(f, lines, at, i, j, line);
    WholeIs(f, Spliced(lines, i, j, line), Moved(at, i, j), OwnEnd(f, lines, at) - (j - i) + 1, key);
  }

  // ------------------------------------------------------------------ the key that is set

  /** An edit of an entry: the new line stands for lines [i, j), which are the key's if it is seen. */
  ghost predicate Edits<L(!new)>(f: Format<L>, lines: seq<L>, at: Place, i: nat, j: nat, key: iset<(L, nat)>,
                                 beside: iset<(L, nat)>, line: L) {
    && Find(f, lines) == Some(at) && Gap(f, lines, at, key, beside) == (i, j)
    && BlankEnds(f) && IsKey(f, key) && IsKey(f, beside) && (line, at.indent) in key
  }

  /** The gap begins before any line of the key, at a line that starts anew or at the seeming end. */
  lemma GapStart<L(!new)>(f: Format<L>, lines: seq<L>, at: Place, i: nat, j: nat, key: iset<(L, nat)>,
                          beside: iset<(L, nat)>, line: L)
    requires Edits(f, lines, at, i, j, key, beside, line)
    ensures at.end <= OwnEnd(f, lines, at) && i <= First(lines, at.start + 1, OwnEnd(f, lines, at), At(key, at.indent))
    ensures i < at.end ==> lines[i] in Anew(f, at.indent)
    ensures line in At(key, at.indent) && line in Anew(f, at.indent) && (line, at.indent) in f.inside
  {
    Seen(f, lines, at);
    GapIsClean(f, lines, at, key, beside);
    FirstFurther(lines, at.start + 1, at.end, OwnEnd(f, lines, at), At(key, at.indent));
  }

  /** It ends before a line that starts anew, or at the seeming end, where the entry may go on with a value. */
  lemma GapEnd<L(!new)>(f: Format<L>, lines: seq<L>, at: Place, i: nat, j: nat, key: iset<(L, nat)>,
                        beside: iset<(L, nat)>, line: L)
    requires Edits(f, lines, at, i, j, key, beside, line) && at.end <= OwnEnd(f, lines, at)
    ensures BlankOn(lines, j, OwnEnd(f, lines, at), Anew(f, at.indent), f.blank)
       <==> j < at.end || !GoesOn(f, lines, at)
  {
    Seen(f, lines, at);
    GapIsClean(f, lines, at, key, beside);
    if j < at.end {
      FirstIs(lines, j, OwnEnd(f, lines, at), Anew(f, at.indent), j);
    } else {
      BlankOnIff(f, lines, at);
    }
  }

  /** A line of the key, for lines that no line of the key stands before. */
  ghost predicate Leads<L(!new)>(f: Format<L>, lines: seq<L>, at: Place, e: nat, i: nat, j: nat, line: L,
                                 key: iset<(L, nat)>) {
    && at.start < i <= j <= e <= |lines| && i <= First(lines, at.start + 1, e, At(key, at.indent))
    && line in At(key, at.indent) && line in Anew(f, at.indent)
  }

  lemma SetAloneIn<L(!new)>(f: Format<L>, lines: seq<L>, at: Place, e: nat, i: nat, j: nat, line: L,
                            key: iset<(L, nat)>)
    requires Leads(f, lines, at, e, i, j, line, key)
    ensures WholeIn(f, Spliced(lines, i, j, line), at.start, at.indent, e - (j - i) + 1, key) == Some([line])
       <==> BlankOn(lines, j, e, Anew(f, at.indent), f.blank)
  {
    assert line !in f.blank;
    SetAloneIff(lines, i, j, line, at.start + 1, e, At(key, at.indent), Anew(f, at.indent), f.blank);
  }

  lemma SetAloneWhole<L(!new)>(f: Format<L>, lines: seq<L>, at: Place, i: nat, j: nat, line: L, key: iset<(L, nat)>)
    requires Find(f, lines) == Some(at) && at.start < i <= j <= at.end <= OwnEnd(f, lines, at)
    requires Leads(f, lines, at, OwnEnd(f, lines, at), i, j, line, key) && (line, at.indent) in f.inside
    ensures Whole(f, Spliced(lines, i, j, line), key) == Some([line])
       <==> BlankOn(lines, j, OwnEnd(f, lines, at), Anew(f, at.indent), f.blank)
  {
    WholeAfter(f, lines, at, i, j, line, key);
    SetAloneIn(f, lines, at, OwnEnd(f, lines, at), i, j, line, key);
  }

  /** The key reads back as the new line alone exactly when what was replaced ended before the entry seems to, or
      the entry does not go on with a value there. */
  lemma ReadsBackIff<L(!new)>(f: Format<L>, lines: seq<L>, at: Place, i: nat, j: nat, key: iset<(L, nat)>,
                              beside: iset<(L, nat)>, line: L)
    requires Edits(f, lines, at, i, j, key, beside, line)
    ensures Whole(f, Spliced(lines, i, j, line), key) == Some([line]) <==> j < at.end || !GoesOn(f, lines, at)
  {
    GapStart(f, lines, at, i, j, key, beside, line);
    GapEnd(f, lines, at, i, j, key, beside, line);
    SetAloneWhole(f, lines, at, i, j, line, key);
  }

  // ------------------------------------------------------------------ a value that is seen

  /** The whole value of a key that is seen is what the edit sees of it, exactly when that ends before the entry
      seems to, or the entry does not go on with it there. */
  lemma SeenWholeIff<L(!new)>(f: Format<L>, lines: seq<L>, at: Place, key: iset<(L, nat)>)
    requires Find(f, lines) == Some(at) && BlankEnds(f) && KeyAt(lines, at, key) < at.end
    ensures Whole(f, lines, key) == Some(SeenValue(f, lines, at, key)) <==>
              !(IsLast(f, lines, at, key) && GoesOn(f, lines, at))
  {
    Seen(f, lines, at);
    BlankOnIff(f, lines, at);
    SameEnd(f, lines, at, KeyAt(lines, at, key) + 1);
    SeenIsAllIff(lines, at.start + 1, at.end, OwnEnd(f, lines, at), At(key, at.indent), Anew(f, at.indent), f.blank);
  }

  /** The lines that are replaced are the key's whole value exactly when the edit sees it whole; and none are,
      because it has none, exactly when no line of it stands in the entry. */
  lemma ReplacedWholeIff<L(!new)>(f: Format<L>, lines: seq<L>, at: Place, i: nat, j: nat, key: iset<(L, nat)>,
                                  beside: iset<(L, nat)>, line: L)
    requires Edits(f, lines, at, i, j, key, beside, line)
    ensures i < j ==> (Whole(f, lines, key) == Some(lines[i..j]) <==> j < at.end || !GoesOn(f, lines, at))
    ensures i == j ==> (Whole(f, lines, key).None? <==> forall m: nat :: !OwnedKey(lines, at, Within(f), key, m))
  {
    if KeyAt(lines, at, key) < at.end {
      SeenWholeIff(f, lines, at, key);
    } else {
      UnseenIsNone(f, lines, at, key);
    }
  }

  lemma UnseenIsNone<L(!new)>(f: Format<L>, lines: seq<L>, at: Place, key: iset<(L, nat)>)
    requires Find(f, lines) == Some(at)
    ensures Whole(f, lines, key).None? <==> forall m: nat :: !OwnedKey(lines, at, Within(f), key, m)
  {
    var e := OwnEnd(f, lines, at);
    var k := First(lines, at.start + 1, e, At(key, at.indent));
    NoneBefore(lines, at.start + 1, e, At(key, at.indent));
    NoneBefore(lines, at.start + 1, |lines|, Outside(f, at.indent));
    if k < e {
      forall m | at.start < m <= k ensures lines[m] in At(Within(f), at.indent) {
        assert lines[m] !in Outside(f, at.indent);
      }
      assert OwnedKey(lines, at, Within(f), key, k);
    } else {
      forall m: nat ensures !OwnedKey(lines, at, Within(f), key, m) {
        assert m < e ==> lines[m] !in At(key, at.indent) || m <= at.start;
        assert e <= m < |lines| ==> lines[e] in Outside(f, at.indent);
      }
    }
  }

  // ------------------------------------------------------------------ every other key

  lemma OtherIsAside<L(!new)>(f: Format<L>, lines: seq<L>, at: Place, e: nat, i: nat, j: nat, key: iset<(L, nat)>,
                              beside: iset<(L, nat)>, line: L, other: iset<(L, nat)>)
    requires Edits(f, lines, at, i, j, key, beside, line) && IsKey(f, other) && Differ(key, other)
    requires i < at.end || at.end <= KeyAt(lines, at, other)
    requires at.end <= e <= |lines| && line in Anew(f, at.indent) && (i < at.end ==> lines[i] in Anew(f, at.indent))
    ensures Aside(lines, i, j, line, at.start + 1, e, At(other, at.indent), Anew(f, at.indent))
  {
    OtherOutsideGap(f, lines, at, i, j, key, beside, line, other);
    FirstFurther(lines, at.start + 1, at.end, e, At(other, at.indent));
  }

  lemma AsideStaysIn<L(!new)>(f: Format<L>, lines: seq<L>, at: Place, e: nat, i: nat, j: nat, line: L,
                              other: iset<(L, nat)>)
    requires at.start < i <= j <= at.end <= e <= |lines|
    requires Aside(lines, i, j, line, at.start + 1, e, At(other, at.indent), Anew(f, at.indent))
    ensures WholeIn(f, Spliced(lines, i, j, line), at.start, at.indent, e - (j - i) + 1, other)
         == WholeIn(f, lines, at.start, at.indent, e, other)
  {
    AsideStays(lines, i, j, line, at.start + 1, e, At(other, at.indent), Anew(f, at.indent), f.blank);
  }

  /** Away from where the entry only seems to end, another key's value is read as it was. */
  lemma OtherStays<L(!new)>(f: Format<L>, lines: seq<L>, at: Place, i: nat, j: nat, key: iset<(L, nat)>,
                            beside: iset<(L, nat)>, line: L, other: iset<(L, nat)>)
    requires Edits(f, lines, at, i, j, key, beside, line) && IsKey(f, other) && Differ(key, other)
    requires i < at.end || at.end <= KeyAt(lines, at, other)
    ensures Whole(f, Spliced(lines, i, j, line), other) == Whole(f, lines, other)
  {
    var e := OwnEnd(f, lines, at);
    GapStart(f, lines, at, i, j, key, beside, line);
    OtherIsAside(f, lines, at, e, i, j, key, beside, line, other);
    AsideStaysWhole(f, lines, at, e, i, j, line, other);
  }

  lemma AsideStaysWhole<L(!new)>(f: Format<L>, lines: seq<L>, at: Place, e: nat, i: nat, j: nat, line: L,
                                 other: iset<(L, nat)>)
    requires Find(f, lines) == Some(at) && at.start < i <= j <= at.end <= e == OwnEnd(f, lines, at)
    requires Aside(lines, i, j, line, at.start + 1, e, At(other, at.indent), Anew(f, at.indent))
    requires (line, at.indent) in f.inside
    ensures Whole(f, Spliced(lines, i, j, line), other) == Whole(f, lines, other)
  {
    WholeAfter(f, lines, at, i, j, line, other);
    WholeIs(f, lines, at, e, other);
    AsideStaysIn(f, lines, at, e, i, j, line, other);
  }

  lemma SeenIsLeftIn<L(!new)>(f: Format<L>, lines: seq<L>, at: Place, e: nat, line: L, other: iset<(L, nat)>)
    requires Find(f, lines) == Some(at) && BlankEnds(f) && at.end <= e <= |lines|
    requires KeyAt(lines, at, other) < at.end && line in Anew(f, at.indent)
    ensures WholeIn(f, Spliced(lines, at.end, at.end, line), at.start, at.indent, e - (at.end - at.end) + 1, other)
         == Some(SeenValue(f, lines, at, other))
  {
    Seen(f, lines, at);
    SameEnd(f, lines, at, KeyAt(lines, at, other) + 1);
    SeenIsLeft(lines, at.start + 1, at.end, e, line, At(other, at.indent), Anew(f, at.indent), f.blank);
  }

  /** Another key's value that the edit sees is afterwards just that, when the new line is added at the end. */
  lemma OtherAtEnd<L(!new)>(f: Format<L>, lines: seq<L>, at: Place, line: L, other: iset<(L, nat)>)
    requires Find(f, lines) == Some(at) && BlankEnds(f) && KeyAt(lines, at, other) < at.end <= OwnEnd(f, lines, at)
    requires (line, at.indent) in f.inside && line in Anew(f, at.indent)
    ensures Whole(f, Spliced(lines, at.end, at.end, line), other) == Some(SeenValue(f, lines, at, other))
  {
    WholeAfter(f, lines, at, at.end, at.end, line, other);
    SeenIsLeftIn(f, lines, at, OwnEnd(f, lines, at), line, other);
  }

  /** Every other key is as it was, exactly unless the new line is added where the entry only seems to end, and
      cuts that key's value in two. */
  lemma OtherStaysIff<L(!new)>(f: Format<L>, lines: seq<L>, at: Place, i: nat, j: nat, key: iset<(L, nat)>,
                               beside: iset<(L, nat)>, line: L, other: iset<(L, nat)>)
    requires Edits(f, lines, at, i, j, key, beside, line) && IsKey(f, other) && Differ(key, other)
    ensures Whole(f, Spliced(lines, i, j, line), other) == Whole(f, lines, other) <==>
              !(i == at.end && IsLast(f, lines, at, other) && GoesOn(f, lines, at))
  {
    if i == at.end && KeyAt(lines, at, other) < at.end {
      GapStart(f, lines, at, i, j, key, beside, line);
      OtherAtEnd(f, lines, at, line, other);
      SeenWholeIff(f, lines, at, other);
    } else {
      OtherStays(f, lines, at, i, j, key, beside, line, other);
    }
  }
}
