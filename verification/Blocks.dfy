/**
 Setting a key of one entry of a list of lines, whatever the lines look like: which of them open the entry,
 belong to it, start a key or go on with a value is a parameter. The laws of the edit hold for any format in
 which the line of a key stands inside the entry and goes on with no value.
 */
module Blocks {
  import opened Scans
  import opened Wrappers

  /** Which line opens the entry, how deep it says the keys are, which lines at such a depth are of the entry and
      go on with no value, and which are blank. */
  datatype Format<!L> = Format(opens: iset<L>, depth: L -> nat, inside: iset<(L, nat)>, afresh: iset<(L, nat)>,
                               blank: iset<L>)

  /** Where an entry stands: its opening line, the depth of its keys, and the line after it. */
  datatype Place = Place(start: nat, indent: nat, end: nat)

  ghost function Beyond<L(!new)>(f: Format<L>, indent: nat): iset<L> {
    iset line | (line, indent) !in f.inside
  }

  ghost function At<L(!new)>(p: iset<(L, nat)>, indent: nat): iset<L> {
    iset line | (line, indent) in p
  }

  ghost function Find<L(!new)>(f: Format<L>, lines: seq<L>): (r: Option<Place>)
    ensures r.Some? ==> r.value.start < r.value.end <= |lines|
  {
    var start := First(lines, 0, |lines|, f.opens);
    if start == |lines| then None
    else
      var indent := f.depth(lines[start]);
      Some(Place(start, indent, First(lines, start + 1, |lines|, Beyond(f, indent))))
  }

  /** The first line of a key in an entry, or where the entry ends. */
  ghost function KeyAt<L(!new)>(lines: seq<L>, at: Place, key: iset<(L, nat)>): (i: nat)
    requires at.start < at.end <= |lines|
    ensures at.start < i <= at.end
  {
    First(lines, at.start + 1, at.end, At(key, at.indent))
  }

  /** Where the value that goes on from line k ends. */
  ghost function ValueEnd<L(!new)>(lines: seq<L>, at: Place, k: nat, afresh: iset<(L, nat)>): (j: nat)
    requires k <= at.end <= |lines|
    ensures k <= j <= at.end
  {
    First(lines, k, at.end, At(afresh, at.indent))
  }

  /** The lines [from, to) that the new line takes the place of: the key's, or none, before the key it is
      added beside. */
  ghost function Gap<L(!new)>(f: Format<L>, lines: seq<L>, at: Place, key: iset<(L, nat)>, beside: iset<(L, nat)>)
    : (gap: (nat, nat))
    requires at.start < at.end <= |lines|
    ensures at.start < gap.0 <= gap.1 <= at.end
  {
    var i := KeyAt(lines, at, key);
    if i < at.end then (i, ValueEnd(lines, at, i + 1, f.afresh))
    else
      var s := KeyAt(lines, at, beside);
      (s, s)
  }

  ghost function SetIn<L(!new)>(f: Format<L>, lines: seq<L>, key: iset<(L, nat)>, beside: iset<(L, nat)>,
                                line: nat -> L)
    : Option<seq<L>>
  {
    match Find(f, lines)
    case None => None
    case Some(at) =>
      var gap := Gap(f, lines, at, key, beside);
      Some(Spliced(lines, gap.0, gap.1, line(at.indent)))
  }

  /** What the edit sees of a key's value, its own line first: no further than where the entry seems to end. */
  ghost function Read<L(!new)>(f: Format<L>, lines: seq<L>, key: iset<(L, nat)>): Option<seq<L>> {
    match Find(f, lines)
    case None => None
    case Some(at) => ReadFrom(lines, at.start + 1, at.end, At(key, at.indent), At(f.afresh, at.indent))
  }

  /** Where the entry is found. */
  lemma FindIs<L(!new)>(f: Format<L>, lines: seq<L>, at: Place)
    requires at.start < at.end <= |lines| && lines[at.start] in f.opens && f.depth(lines[at.start]) == at.indent
    requires forall m :: 0 <= m < at.start ==> lines[m] !in f.opens
    requires forall m :: at.start < m < at.end ==> (lines[m], at.indent) in f.inside
    requires at.end < |lines| ==> (lines[at.end], at.indent) !in f.inside
    ensures Find(f, lines) == Some(at)
  {
    FirstIs(lines, 0, |lines|, f.opens, at.start);
    FirstIs(lines, at.start + 1, |lines|, Beyond(f, at.indent), at.end);
  }

  // ------------------------------------------------------------------ what a key's line is

  /** A key's line is inside the entry, and ends the value before it. */
  ghost predicate IsKey<L(!new)>(f: Format<L>, key: iset<(L, nat)>) {
    forall line, n :: (line, n) in key ==> (line, n) in f.inside && (line, n) in f.afresh
  }

  /** No line is of both keys. */
  ghost predicate Differ<L(!new)>(a: iset<(L, nat)>, b: iset<(L, nat)>) {
    forall line, n :: (line, n) in a ==> (line, n) !in b
  }

  ghost predicate Writes<L(!new)>(line: nat -> L, key: iset<(L, nat)>) {
    forall n: nat :: (line(n), n) in key
  }

  /** The entry after lines [i, j) of it were replaced by one. */
  function Moved(at: Place, i: nat, j: nat): Place
    requires i <= j <= at.end
  {
    at.(end := at.end - (j - i) + 1)
  }

  /** The entry stands where it stood, and ends as many lines later as were added. */
  lemma FoundAgain<L(!new)>(f: Format<L>, lines: seq<L>, i: nat, j: nat, line: L)
    requires Find(f, lines).Some?
    requires var at := Find(f, lines).value; at.start < i <= j <= at.end && (line, at.indent) in f.inside
    ensures Find(f, Spliced(lines, i, j, line)) == Some(Moved(Find(f, lines).value, i, j))
  {
    var at := Find(f, lines).value;
    FirstBefore(lines, i, j, line, 0, |lines|, f.opens);
    FirstBeyond(lines, i, j, line, at.start + 1, |lines|, Beyond(f, at.indent));
    SplicedEnds(lines, i, j, line);
    assert Spliced(lines, i, j, line)[at.start] == lines[at.start];
  }

  /** Where a value goes on, no other key's line is. */
  lemma NoKeyInAValue<L(!new)>(f: Format<L>, lines: seq<L>, at: Place, key: iset<(L, nat)>, other: iset<(L, nat)>)
    requires at.start < at.end <= |lines| && IsKey(f, other) && Differ(key, other)
    requires KeyAt(lines, at, key) < at.end && KeyAt(lines, at, key) <= KeyAt(lines, at, other)
    ensures ValueEnd(lines, at, KeyAt(lines, at, key) + 1, f.afresh) <= KeyAt(lines, at, other)
  {
    var i, k := KeyAt(lines, at, key), KeyAt(lines, at, other);
    NoneBefore(lines, i + 1, at.end, At(f.afresh, at.indent));
    if k < at.end {
      assert (lines[k], at.indent) in other && (lines[i], at.indent) in key;
      assert lines[k] in At(f.afresh, at.indent);
    }
  }

  /** No value goes on at either edge of the gap, the key is not before it, and no other key is in it. */
  lemma GapIsClean<L(!new)>(f: Format<L>, lines: seq<L>, at: Place, key: iset<(L, nat)>, beside: iset<(L, nat)>)
    requires at.start < at.end <= |lines| && IsKey(f, key) && IsKey(f, beside)
    ensures var (i, j) := Gap(f, lines, at, key, beside);
            && (i < at.end ==> lines[i] in At(f.afresh, at.indent))
            && (j < at.end ==> lines[j] in At(f.afresh, at.indent))
            && i <= KeyAt(lines, at, key)
  {
    var (i, j) := Gap(f, lines, at, key, beside);
    if i < at.end {
      assert (lines[i], at.indent) in key || (lines[i], at.indent) in beside;
    }
  }

  // ------------------------------------------------------------------ the laws

  /** The value the key had is replaced whole, and nothing else: every line before and after stays. */
  lemma OldValueIsReplacedWhole<L(!new)>(f: Format<L>, lines: seq<L>, key: iset<(L, nat)>, beside: iset<(L, nat)>,
                                         line: nat -> L)
    requires SetIn(f, lines, key, beside, line).Some?
    ensures var at := Find(f, lines).value;
            var (i, j) := Gap(f, lines, at, key, beside);
            && SetIn(f, lines, key, beside, line).value == lines[..i] + [line(at.indent)] + lines[j..]
            && lines[i..j] == match Read(f, lines, key) case Some(value) => value case None => []
  {
  }

  lemma ReadAlike<L(!new)>(f: Format<L>, lines: seq<L>, at: Place, out: seq<L>, moved: Place, key: iset<(L, nat)>)
    requires Find(f, lines) == Some(at) && Find(f, out) == Some(moved)
    requires moved.start == at.start && moved.indent == at.indent
    requires ReadFrom(out, at.start + 1, moved.end, At(key, at.indent), At(f.afresh, at.indent))
          == ReadFrom(lines, at.start + 1, at.end, At(key, at.indent), At(f.afresh, at.indent))
    ensures Read(f, out, key) == Read(f, lines, key)
  {
  }

  lemma SetInAt<L(!new)>(f: Format<L>, lines: seq<L>, at: Place, i: nat, j: nat, key: iset<(L, nat)>,
                         beside: iset<(L, nat)>, line: nat -> L)
    requires Find(f, lines) == Some(at) && Gap(f, lines, at, key, beside) == (i, j)
    ensures SetIn(f, lines, key, beside, line) == Some(Spliced(lines, i, j, line(at.indent)))
  {
  }

  /** The key then reads back as the new line alone. */
  lemma SetThenRead<L(!new)>(f: Format<L>, lines: seq<L>, key: iset<(L, nat)>, beside: iset<(L, nat)>, line: nat -> L)
    requires IsKey(f, key) && IsKey(f, beside) && Writes(line, key) && SetIn(f, lines, key, beside, line).Some?
    ensures var at, out := Find(f, lines).value, SetIn(f, lines, key, beside, line).value;
            var (i, j) := Gap(f, lines, at, key, beside);
            && Find(f, out) == Some(Moved(at, i, j))
            && Gap(f, out, Moved(at, i, j), key, beside) == (i, i + 1)
            && Read(f, out, key) == Some([line(at.indent)])
  {
    var at := Find(f, lines).value;
    var (i, j) := Gap(f, lines, at, key, beside);
    SetInAt(f, lines, at, i, j, key, beside, line);
    ReplacedAt(f, lines, at, i, j, key, beside, line(at.indent));
  }

  lemma ReplacedAt<L(!new)>(f: Format<L>, lines: seq<L>, at: Place, i: nat, j: nat, key: iset<(L, nat)>,
                            beside: iset<(L, nat)>, line: L)
    requires Find(f, lines) == Some(at) && Gap(f, lines, at, key, beside) == (i, j)
    requires IsKey(f, key) && IsKey(f, beside) && (line, at.indent) in key
    ensures var out := Spliced(lines, i, j, line);
            && Find(f, out) == Some(Moved(at, i, j))
            && Gap(f, out, Moved(at, i, j), key, beside) == (i, i + 1)
            && Read(f, out, key) == Some([line])
  {
    FoundAgain(f, lines, i, j, line);
    GapIsClean(f, lines, at, key, beside);
    ReadAtGap(lines, i, j, line, at.start + 1, at.end, At(key, at.indent), At(f.afresh, at.indent));
    GapAndReadAt(f, Spliced(lines, i, j, line), Moved(at, i, j), key, beside, i);
  }

  lemma GapAndReadAt<L(!new)>(f: Format<L>, lines: seq<L>, at: Place, key: iset<(L, nat)>, beside: iset<(L, nat)>,
                              i: nat)
    requires Find(f, lines) == Some(at) && i < at.end
    requires First(lines, at.start + 1, at.end, At(key, at.indent)) == i
    requires First(lines, i + 1, at.end, At(f.afresh, at.indent)) == i + 1
    ensures Gap(f, lines, at, key, beside) == (i, i + 1) && Read(f, lines, key) == Some([lines[i]])
  {
    assert lines[i..i + 1] == [lines[i]];
  }

  /** Every other key of the entry reads as it did. */
  lemma OtherKeysStay<L(!new)>(f: Format<L>, lines: seq<L>, key: iset<(L, nat)>, beside: iset<(L, nat)>, line: nat -> L,
                               other: iset<(L, nat)>)
    requires IsKey(f, key) && IsKey(f, beside) && Writes(line, key) && SetIn(f, lines, key, beside, line).Some?
    requires IsKey(f, other) && Differ(key, other)
    ensures Read(f, SetIn(f, lines, key, beside, line).value, other) == Read(f, lines, other)
  {
    var at := Find(f, lines).value;
    var (i, j) := Gap(f, lines, at, key, beside);
    SetInAt(f, lines, at, i, j, key, beside, line);
    OtherAt(f, lines, at, i, j, key, beside, line(at.indent), other);
  }

  lemma OtherAt<L(!new)>(f: Format<L>, lines: seq<L>, at: Place, i: nat, j: nat, key: iset<(L, nat)>,
                         beside: iset<(L, nat)>, line: L, other: iset<(L, nat)>)
    requires Find(f, lines) == Some(at) && Gap(f, lines, at, key, beside) == (i, j)
    requires IsKey(f, key) && IsKey(f, beside) && (line, at.indent) in key
    requires IsKey(f, other) && Differ(key, other)
    ensures Read(f, Spliced(lines, i, j, line), other) == Read(f, lines, other)
  {
    FoundAgain(f, lines, i, j, line);
    OtherInEntry(f, lines, at, i, j, key, beside, line, other);
    ReadAlike(f, lines, at, Spliced(lines, i, j, line), Moved(at, i, j), other);
  }

  /** Another key's line is not in the gap, and neither it nor its value is the new line. */
  lemma OtherOutsideGap<L(!new)>(f: Format<L>, lines: seq<L>, at: Place, i: nat, j: nat, key: iset<(L, nat)>,
                                 beside: iset<(L, nat)>, line: L, other: iset<(L, nat)>)
    requires at.start < at.end <= |lines| && Gap(f, lines, at, key, beside) == (i, j)
    requires IsKey(f, key) && IsKey(f, beside) && (line, at.indent) in key
    requires IsKey(f, other) && Differ(key, other)
    ensures var p, afresh := At(other, at.indent), At(f.afresh, at.indent);
            && at.start + 1 <= i <= j <= at.end
            && (First(lines, at.start + 1, at.end, p) < i || j <= First(lines, at.start + 1, at.end, p))
            && line !in p && line in afresh && (i < at.end ==> lines[i] in afresh)
  {
    GapIsClean(f, lines, at, key, beside);
    if KeyAt(lines, at, key) < at.end && i <= KeyAt(lines, at, other) {
      NoKeyInAValue(f, lines, at, key, other);
    }
  }

  lemma OtherInEntry<L(!new)>(f: Format<L>, lines: seq<L>, at: Place, i: nat, j: nat, key: iset<(L, nat)>,
                              beside: iset<(L, nat)>, line: L, other: iset<(L, nat)>)
    requires at.start < at.end <= |lines| && Gap(f, lines, at, key, beside) == (i, j)
    requires IsKey(f, key) && IsKey(f, beside) && (line, at.indent) in key
    requires IsKey(f, other) && Differ(key, other)
    ensures ReadFrom(Spliced(lines, i, j, line), at.start + 1, at.end - (j - i) + 1, At(other, at.indent),
                     At(f.afresh, at.indent))
         == ReadFrom(lines, at.start + 1, at.end, At(other, at.indent), At(f.afresh, at.indent))
  {
    OtherOutsideGap(f, lines, at, i, j, key, beside, line, other);
    StretchKeepsReading(lines, i, j, line, at.start + 1, at.end, At(other, at.indent), At(f.afresh, at.indent));
  }

  /** Setting a key again replaces what was set: the last one stands, and setting twice is setting once. */
  lemma SetTwice<L(!new)>(f: Format<L>, lines: seq<L>, key: iset<(L, nat)>, beside: iset<(L, nat)>,
                          line: nat -> L, again: nat -> L)
    requires IsKey(f, key) && IsKey(f, beside) && Writes(line, key) && SetIn(f, lines, key, beside, line).Some?
    ensures SetIn(f, SetIn(f, lines, key, beside, line).value, key, beside, again)
         == SetIn(f, lines, key, beside, again)
  {
    var at := Find(f, lines).value;
    var (i, j) := Gap(f, lines, at, key, beside);
    SetThenRead(f, lines, key, beside, line);
    SplicedEnds(lines, i, j, line(at.indent));
  }

  // ------------------------------------------------------------------ the lines an entry owns

  /** The lines an entry really has: blank ones do not end it. */
  ghost function Within<L(!new)>(f: Format<L>): iset<(L, nat)> {
    iset p: (L, nat) | p in f.inside || p.0 in f.blank
  }

  /** A line the entry owns: every line from the opening one down to it is within. */
  ghost predicate Owned<L(!new)>(lines: seq<L>, at: Place, within: iset<(L, nat)>, m: nat) {
    at.start < m < |lines| && forall k :: at.start < k <= m ==> lines[k] in At(within, at.indent)
  }

  ghost predicate OwnedKey<L(!new)>(lines: seq<L>, at: Place, within: iset<(L, nat)>, key: iset<(L, nat)>, m: nat) {
    Owned(lines, at, within, m) && lines[m] in At(key, at.indent)
  }

  ghost predicate OneOwned<L(!new)>(lines: seq<L>, at: Place, within: iset<(L, nat)>, key: iset<(L, nat)>) {
    exists m: nat :: OwnedKey(lines, at, within, key, m)
                     && forall n: nat :: OwnedKey(lines, at, within, key, n) ==> n == m
  }

  /** The edit sees them all: no line of the key that the entry owns stands at its seeming end or after, and
      no two stand before. */
  ghost predicate AllSeen<L(!new)>(lines: seq<L>, at: Place, within: iset<(L, nat)>, key: iset<(L, nat)>) {
    && (forall m: nat :: OwnedKey(lines, at, within, key, m) ==> m < at.end)
    && (forall m: nat, n: nat :: OwnedKey(lines, at, within, key, m) && OwnedKey(lines, at, within, key, n) ==> m == n)
  }

  lemma InsideIsOwned<L(!new)>(f: Format<L>, lines: seq<L>, at: Place, within: iset<(L, nat)>)
    requires Find(f, lines) == Some(at) && f.inside <= within
    ensures forall k :: at.start < k < at.end ==> lines[k] in At(within, at.indent)
  {
    NoneBefore(lines, at.start + 1, |lines|, Beyond(f, at.indent));
    forall k | at.start < k < at.end ensures lines[k] in At(within, at.indent) {
      assert lines[k] !in Beyond(f, at.indent);
      assert (lines[k], at.indent) in f.inside;
    }
  }

  lemma OwnedBefore<L(!new)>(lines: seq<L>, at: Place, within: iset<(L, nat)>, i: nat, j: nat, line: L, m: nat)
    requires at.start < i <= j <= at.end <= |lines| && m < i
    ensures Owned(Spliced(lines, i, j, line), Moved(at, i, j), within, m) <==> Owned(lines, at, within, m)
  {
    var out := Spliced(lines, i, j, line);
    forall k | 0 <= k < i ensures out[k] == lines[k] {
      SplicedIndex(lines, i, j, line, k);
    }
  }

  lemma OwnedAtGap<L(!new)>(lines: seq<L>, at: Place, within: iset<(L, nat)>, i: nat, j: nat, line: L)
    requires at.start < i <= j <= at.end <= |lines|
    requires forall k :: at.start < k < at.end ==> lines[k] in At(within, at.indent)
    requires line in At(within, at.indent)
    ensures Owned(Spliced(lines, i, j, line), Moved(at, i, j), within, i)
  {
    var out := Spliced(lines, i, j, line);
    SplicedEnds(lines, i, j, line);
    forall k | at.start < k < i ensures out[k] in At(within, at.indent) {
      SplicedIndex(lines, i, j, line, k);
    }
  }

  lemma OwnedAfter<L(!new)>(lines: seq<L>, at: Place, within: iset<(L, nat)>, i: nat, j: nat, line: L, m: nat)
    requires at.start < i <= j <= at.end <= |lines| && j <= m < |lines|
    requires forall k :: at.start < k < at.end ==> lines[k] in At(within, at.indent)
    requires line in At(within, at.indent)
    ensures Owned(Spliced(lines, i, j, line), Moved(at, i, j), within, m - (j - i) + 1) <==> Owned(lines, at, within, m)
  {
    var out, cut := Spliced(lines, i, j, line), j - i;
    OwnedAtGap(lines, at, within, i, j, line);
    forall k | j <= k <= m ensures out[k - cut + 1] == lines[k] {
      SplicedIndex(lines, i, j, line, k);
    }
    if Owned(out, Moved(at, i, j), within, m - cut + 1) {
      forall k | at.start < k <= m ensures lines[k] in At(within, at.indent) {
        if k >= j {
          assert out[k - cut + 1] in At(within, at.indent);
        }
      }
    }
    if Owned(lines, at, within, m) {
      forall k | at.start < k <= m - cut + 1 ensures out[k] in At(within, at.indent) {
        if k > i {
          assert out[k] == lines[k + cut - 1];
        }
      }
    }
  }

  /** The owned lines of the key after the edit are the new line, and those that were owned outside the gap. */
  lemma OwnedKeysAfter<L(!new)>(lines: seq<L>, at: Place, within: iset<(L, nat)>, key: iset<(L, nat)>, i: nat, j: nat,
                                line: L, m: nat)
    requires at.start < i <= j <= at.end <= |lines|
    requires forall k :: at.start < k < at.end ==> lines[k] in At(within, at.indent)
    requires line in At(within, at.indent) && line in At(key, at.indent)
    ensures OwnedKey(Spliced(lines, i, j, line), Moved(at, i, j), within, key, i)
    ensures m < i ==> (OwnedKey(Spliced(lines, i, j, line), Moved(at, i, j), within, key, m)
                       <==> OwnedKey(lines, at, within, key, m))
    ensures j <= m < |lines| ==> (OwnedKey(Spliced(lines, i, j, line), Moved(at, i, j), within, key, m - (j - i) + 1)
                                  <==> OwnedKey(lines, at, within, key, m))
  {
    OwnedAtGap(lines, at, within, i, j, line);
    SplicedEnds(lines, i, j, line);
    if m < i {
      OwnedBefore(lines, at, within, i, j, line, m);
      SplicedIndex(lines, i, j, line, m);
    }
    if j <= m < |lines| {
      OwnedAfter(lines, at, within, i, j, line, m);
      SplicedIndex(lines, i, j, line, m);
    }
  }

  /** The gap holds no line of the key but its first, and when it holds that, it is there. */
  lemma GapHoldsTheKey<L(!new)>(f: Format<L>, lines: seq<L>, at: Place, key: iset<(L, nat)>, beside: iset<(L, nat)>,
                                m: nat)
    requires at.start < at.end <= |lines| && IsKey(f, key) && at.start < m < |lines| && lines[m] in At(key, at.indent)
    ensures var (i, j) := Gap(f, lines, at, key, beside);
            && i <= at.end && (i <= m < j ==> m == i) && (m < at.end ==> i == KeyAt(lines, at, key) <= m && i < j)
  {
    var i := KeyAt(lines, at, key);
    NoneBefore(lines, at.start + 1, at.end, At(key, at.indent));
    if i < at.end {
      NoneBefore(lines, i + 1, at.end, At(f.afresh, at.indent));
      assert (lines[m], at.indent) in f.afresh;
    }
  }

  /** The entry has one line of the key after the edit exactly when the edit saw all it had. */
  lemma OneOwnedIff<L(!new)>(f: Format<L>, lines: seq<L>, at: Place, within: iset<(L, nat)>, key: iset<(L, nat)>,
                             beside: iset<(L, nat)>, line: L)
    requires Find(f, lines) == Some(at) && f.inside <= within
    requires IsKey(f, key) && IsKey(f, beside) && (line, at.indent) in key
    ensures var (i, j) := Gap(f, lines, at, key, beside);
            OneOwned(Spliced(lines, i, j, line), Moved(at, i, j), within, key) <==> AllSeen(lines, at, within, key)
  {
    var (i, j) := Gap(f, lines, at, key, beside);
    InsideIsOwned(f, lines, at, within);
    GapIsClean(f, lines, at, key, beside);
    assert line in At(within, at.indent) && line in At(key, at.indent);
    if AllSeen(lines, at, within, key) {
      SeenIsOne(f, lines, at, within, key, beside, i, j, line);
    }
    if OneOwned(Spliced(lines, i, j, line), Moved(at, i, j), within, key) {
      OneIsSeen(f, lines, at, within, key, beside, i, j, line);
    }
  }

  lemma SeenIsOne<L(!new)>(f: Format<L>, lines: seq<L>, at: Place, within: iset<(L, nat)>, key: iset<(L, nat)>,
                           beside: iset<(L, nat)>, i: nat, j: nat, line: L)
    requires at.start < at.end <= |lines| && Gap(f, lines, at, key, beside) == (i, j) && IsKey(f, key)
    requires forall k :: at.start < k < at.end ==> lines[k] in At(within, at.indent)
    requires line in At(within, at.indent) && line in At(key, at.indent)
    requires AllSeen(lines, at, within, key)
    ensures OneOwned(Spliced(lines, i, j, line), Moved(at, i, j), within, key)
  {
    var out, cut := Spliced(lines, i, j, line), j - i;
    OwnedKeysAfter(lines, at, within, key, i, j, line, i);
    forall n: nat | OwnedKey(out, Moved(at, i, j), within, key, n) ensures n == i {
      if n != i {
        var m := if n < i then n else n + cut - 1;
        OwnedKeysAfter(lines, at, within, key, i, j, line, m);
        GapHoldsTheKey(f, lines, at, key, beside, m);
        FirstIsOwned(lines, at, within, key);
        assert false;
      }
    }
  }

  /** The first line of the key is owned, if it stands before the seeming end. */
  lemma FirstIsOwned<L(!new)>(lines: seq<L>, at: Place, within: iset<(L, nat)>, key: iset<(L, nat)>)
    requires at.start < at.end <= |lines|
    requires forall k :: at.start < k < at.end ==> lines[k] in At(within, at.indent)
    ensures KeyAt(lines, at, key) < at.end ==> OwnedKey(lines, at, within, key, KeyAt(lines, at, key))
  {
  }

  lemma OneIsSeen<L(!new)>(f: Format<L>, lines: seq<L>, at: Place, within: iset<(L, nat)>, key: iset<(L, nat)>,
                           beside: iset<(L, nat)>, i: nat, j: nat, line: L)
    requires at.start < at.end <= |lines| && Gap(f, lines, at, key, beside) == (i, j) && IsKey(f, key)
    requires forall k :: at.start < k < at.end ==> lines[k] in At(within, at.indent)
    requires line in At(within, at.indent) && line in At(key, at.indent)
    requires OneOwned(Spliced(lines, i, j, line), Moved(at, i, j), within, key)
    ensures AllSeen(lines, at, within, key)
  {
    forall m: nat | OwnedKey(lines, at, within, key, m) ensures m == i < j {
      OwnedKeysAfter(lines, at, within, key, i, j, line, m);
      GapHoldsTheKey(f, lines, at, key, beside, m);
    }
  }
}
