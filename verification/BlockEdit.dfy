/**
 Setting one key of one block-style list item of a YAML file, touching nothing else.

 A file is its lines. To the editor an entry is the line `- id: ...` and those under it, down to the first that is
 blank or begins to the left of its keys. In the file a blank line ends nothing, and the difference is what the
 laws of the edit turn on.
 */
module BlockEdit {
  import opened Blocks
  import opened Scans
  import opened Texts
  import opened WholeValues
  import opened Wrappers

  function Depth(line: string): nat {
    if line != "" && IsSpace(line[0]) then 1 + Depth(line[1..]) else 0
  }

  function Pad(n: nat): string {
    if n == 0 then "" else [' '] + Pad(n - 1)
  }

  const QUOTES: seq<string> := ["", "'", "\""]

  /** The line that opens the entry of an id, quoted or not. */
  predicate Opens(line: string, id: string) {
    var rest := StripLeft(line);
    "- id: " <= rest
    && exists i, j :: 0 <= i < 3 && 0 <= j < 3
         && QUOTES[i] + id + QUOTES[j] <= rest[6..]
         && Strip(rest[6..][|QUOTES[i] + id + QUOTES[j]|..]) == ""
  }

  /** A line of an entry whose keys stand at `indent`. */
  predicate Inside(line: string, indent: nat) {
    Strip(line) != "" && Depth(line) >= indent
  }

  predicate KeyLine(line: string, indent: nat, key: string) {
    Pad(indent) + key + ":" <= line
  }

  /** A line of the value that began on a line above: it is indented further than the keys are, or is an item
      of a list that is not. */
  predicate Continues(line: string, indent: nat) {
    Depth(line) > indent || (Depth(line) == indent && "- " <= StripLeft(line))
  }

  function NewLine(indent: nat, key: string, scalar: string): string {
    Pad(indent) + key + ": " + scalar
  }

  /** The lines, at the depth of an entry's keys, that go on with no value. */
  ghost function Afresh(): iset<(string, nat)> {
    iset p: (string, nat) | !Continues(p.0, p.1)
  }

  ghost function Key(key: string): iset<(string, nat)> {
    iset p: (string, nat) | KeyLine(p.0, p.1, key)
  }

  /** The lines of a block-style file, for the entry of an id. */
  ghost function Yaml(id: string): Format<string> {
    Format((iset line | Opens(line, id)), (line: string) => Depth(line) + 2,
           (iset p: (string, nat) | Inside(p.0, p.1)), Afresh(), (iset line: string | Strip(line) == ""))
  }

  function Line(key: string, scalar: string): nat -> string {
    (indent: nat) => NewLine(indent, key, scalar)
  }

  /** The file after the edit: the key's lines replaced where they are, else the new line added before the
      entry's `sources`, else at its end. */
  ghost function Edited(lines: seq<string>, id: string, key: string, scalar: string): Option<seq<string>> {
    SetIn(Yaml(id), lines, Key(key), Key("sources"), Line(key, scalar))
  }

  /** What the edit sees of a key's value, its own line first: up to the blank line where the entry seems to end. */
  ghost function Glimpse(lines: seq<string>, id: string, key: string): Option<seq<string>> {
    Read(Yaml(id), lines, Key(key))
  }

  /** A key's value: its own line, and the lines of the entry that go on with it, blank ones between them too. */
  ghost function Value(lines: seq<string>, id: string, key: string): Option<seq<string>> {
    Whole(Yaml(id), lines, Key(key))
  }

  /** What the edit replaces ends where the entry seems to end, and a value goes on there under the blank line. */
  ghost predicate CutsShort(lines: seq<string>, id: string, key: string)
    requires Find(Yaml(id), lines).Some?
  {
    var at := Find(Yaml(id), lines).value;
    Gap(Yaml(id), lines, at, Key(key), Key("sources")).1 == at.end && GoesOn(Yaml(id), lines, at)
  }

  /** The new line is added where the entry seems to end, inside a value of another key. */
  ghost predicate CutsInTwo(lines: seq<string>, id: string, key: string, other: string)
    requires Find(Yaml(id), lines).Some?
  {
    var at := Find(Yaml(id), lines).value;
    && Gap(Yaml(id), lines, at, Key(key), Key("sources")).0 == at.end
    && IsLast(Yaml(id), lines, at, Key(other)) && GoesOn(Yaml(id), lines, at)
  }

  // ------------------------------------------------------------------ the edit

  method LocateStart(lines: seq<string>, id: string) returns (start: nat)
    ensures start == First(lines, 0, |lines|, Yaml(id).opens)
  {
    start := 0;
    while start < |lines| && !Opens(lines[start], id)
      invariant start <= |lines|
      invariant First(lines, start, |lines|, Yaml(id).opens) == First(lines, 0, |lines|, Yaml(id).opens)
    {
      start := start + 1;
    }
  }

  method LocateEnd(lines: seq<string>, start: nat, indent: nat, ghost id: string) returns (end: nat)
    requires start < |lines|
    ensures end == First(lines, start + 1, |lines|, Beyond(Yaml(id), indent))
  {
    end := start + 1;
    while end < |lines| && Strip(lines[end]) != "" && Depth(lines[end]) >= indent
      invariant start < end <= |lines|
      invariant First(lines, end, |lines|, Beyond(Yaml(id), indent))
             == First(lines, start + 1, |lines|, Beyond(Yaml(id), indent))
    {
      end := end + 1;
    }
  }

  /** Looks for the entry, and where it ends. */
  method Locate(lines: seq<string>, id: string) returns (at: Option<Place>)
    ensures at == Find(Yaml(id), lines)
  {
    var start := LocateStart(lines, id);
    if start == |lines| {
      return None;
    }
    var indent := Depth(lines[start]) + 2;
    var end := LocateEnd(lines, start, indent, id);
    return Some(Place(start, indent, end));
  }

  method LocateKey(lines: seq<string>, at: Place, key: string) returns (i: nat)
    requires at.start < at.end <= |lines|
    ensures i == KeyAt(lines, at, Key(key))
  {
    i := at.start + 1;
    while i < at.end && !KeyLine(lines[i], at.indent, key)
      invariant at.start < i <= at.end
      invariant First(lines, i, at.end, At(Key(key), at.indent)) == KeyAt(lines, at, Key(key))
    {
      i := i + 1;
    }
  }

  method LocateValueEnd(lines: seq<string>, at: Place, i: nat) returns (j: nat)
    requires at.start < i < at.end <= |lines|
    ensures j == ValueEnd(lines, at, i + 1, Afresh())
  {
    j := i + 1;
    while j < at.end && Continues(lines[j], at.indent)
      invariant i < j <= at.end && ValueEnd(lines, at, j, Afresh()) == ValueEnd(lines, at, i + 1, Afresh())
    {
      j := j + 1;
    }
  }

  /** The lines to replace: the key's, or none, where it is to be added. */
  method LocateGap(lines: seq<string>, at: Place, key: string, ghost id: string) returns (i: nat, j: nat)
    requires at.start < at.end <= |lines|
    ensures (i, j) == Gap(Yaml(id), lines, at, Key(key), Key("sources"))
  {
    i := LocateKey(lines, at, key);
    if i < at.end {
      j := LocateValueEnd(lines, at, i);
    } else {
      i := LocateKey(lines, at, "sources");
      j := i;
    }
  }

  method SetInBlock(lines: seq<string>, id: string, key: string, scalar: string) returns (out: Option<seq<string>>)
    ensures out == Edited(lines, id, key, scalar)
  {
    var at := Locate(lines, id);
    if at.None? {
      return None;
    }
    var i, j := LocateGap(lines, at.value, key, id);
    return Some(Spliced(lines, i, j, NewLine(at.value.indent, key, scalar)));
  }

  // ------------------------------------------------------------------ lines

  /** What a key looks like. */
  predicate GoodKey(key: string) {
    key != "" && !IsSpace(key[0]) && key[0] != '-' && ':' !in key
  }

  lemma {:induction false} PadDepth(n: nat, rest: string)
    requires rest != "" && !IsSpace(rest[0])
    ensures Depth(Pad(n) + rest) == n && StripLeft(Pad(n) + rest) == rest
  {
    if n == 0 {
      assert Pad(0) + rest == rest;
    } else {
      assert (Pad(n) + rest)[1..] == Pad(n - 1) + rest;
      PadDepth(n - 1, rest);
    }
  }

  lemma {:induction false} PadLength(n: nat)
    ensures |Pad(n)| == n
  {
    if n > 0 {
      PadLength(n - 1);
    }
  }

  /** A key's line stands at the keys' depth and goes on with nothing. */
  lemma KeyLineIsAKey(line: string, indent: nat, key: string)
    requires KeyLine(line, indent, key) && GoodKey(key)
    ensures Depth(line) == indent && !Continues(line, indent) && Inside(line, indent)
  {
    var head := Pad(indent) + key + ":";
    PadLength(indent);
    var rest := line[indent..];
    assert head[indent..] == key + ":";
    assert line == line[..|head|] + line[|head|..] && line[..|head|] == head;
    assert line == Pad(indent) + rest && rest[0] == head[indent] == key[0];
    PadDepth(indent, rest);
    StripRightKeeps(rest);
  }

  lemma {:induction false} StripRightKeeps(s: string)
    requires s != "" && !IsSpace(s[0])
    ensures StripRight(s) != ""
    decreases |s|
  {
    if IsSpace(s[|s| - 1]) {
      StripRightKeeps(s[..|s| - 1]);
    }
  }

  /** A line is of one key only. */
  lemma OneKeyALine(line: string, indent: nat, a: string, b: string)
    requires GoodKey(a) && GoodKey(b) && KeyLine(line, indent, a) && KeyLine(line, indent, b)
    ensures a == b
  {
    PadLength(indent);
    var p, q := Pad(indent) + a + ":", Pad(indent) + b + ":";
    assert forall k :: 0 <= k < |p| ==> line[k] == p[k];
    assert forall k :: 0 <= k < |q| ==> line[k] == q[k];
    assert p[|p| - 1] == ':' && q[|q| - 1] == ':';
    assert forall k :: 0 <= k < |a| ==> p[indent + k] == a[k];
    assert forall k :: 0 <= k < |b| ==> q[indent + k] == b[k];
    assert |a| == |b|;
  }

  lemma NewLineIsKey(indent: nat, key: string, scalar: string)
    requires GoodKey(key)
    ensures KeyLine(NewLine(indent, key, scalar), indent, key)
  {
    var head := Pad(indent) + key + ":";
    assert NewLine(indent, key, scalar) == head + (" " + scalar);
  }

  // ------------------------------------------------------------------ the laws

  lemma IsAKey(id: string, key: string)
    requires GoodKey(key)
    ensures IsKey(Yaml(id), Key(key))
  {
    forall line, indent: nat | (line, indent) in Key(key)
      ensures (line, indent) in Yaml(id).inside && (line, indent) in Yaml(id).afresh
    {
      KeyLineIsAKey(line, indent, key);
    }
  }

  lemma KeysDiffer(a: string, b: string)
    requires GoodKey(a) && GoodKey(b) && a != b
    ensures Differ(Key(a), Key(b))
  {
    forall line, indent: nat | (line, indent) in Key(a) ensures (line, indent) !in Key(b) {
      if KeyLine(line, indent, b) {
        OneKeyALine(line, indent, a, b);
      }
    }
  }

  lemma LineIsOfTheKey(key: string, scalar: string)
    requires GoodKey(key)
    ensures Writes(Line(key, scalar), Key(key))
  {
    forall indent: nat ensures (Line(key, scalar)(indent), indent) in Key(key) {
      NewLineIsKey(indent, key, scalar);
    }
  }

  /** Nothing is edited exactly when no line opens the entry. */
  lemma EditedIff(lines: seq<string>, id: string, key: string, scalar: string)
    ensures Edited(lines, id, key, scalar).None? <==> forall m :: 0 <= m < |lines| ==> !Opens(lines[m], id)
  {
    NoneBefore(lines, 0, |lines|, Yaml(id).opens);
    var start := First(lines, 0, |lines|, Yaml(id).opens);
    assert start < |lines| ==> Opens(lines[start], id);
  }

  /** `out` is the file with lines [i, j) of the entry, which were `value`, replaced by one line. */
  ghost predicate ReplacedOnly(lines: seq<string>, out: seq<string>, at: Place, i: nat, j: nat, line: string,
                               value: seq<string>) {
    at.start < i <= j <= at.end <= |lines| && lines[i..j] == value && out == lines[..i] + [line] + lines[j..]
  }

  /** Only lines of the entry below the one that opens it are replaced, by one line: what the edit sees of the
      key's value, if it sees any. */
  lemma OnlyTheValueIsReplaced(lines: seq<string>, id: string, key: string, scalar: string)
    requires Edited(lines, id, key, scalar).Some?
    ensures var at, out := Find(Yaml(id), lines).value, Edited(lines, id, key, scalar).value;
            var seen := match Glimpse(lines, id, key) case Some(had) => had case None => [];
            exists i, j :: ReplacedOnly(lines, out, at, i, j, NewLine(at.indent, key, scalar), seen)
  {
    OldValueIsReplacedWhole(Yaml(id), lines, Key(key), Key("sources"), Line(key, scalar));
    var at, out := Find(Yaml(id), lines).value, Edited(lines, id, key, scalar).value;
    var (i, j) := Gap(Yaml(id), lines, at, Key(key), Key("sources"));
    var seen := match Glimpse(lines, id, key) case Some(had) => had case None => [];
    assert Line(key, scalar)(at.indent) == NewLine(at.indent, key, scalar);
    assert ReplacedOnly(lines, out, at, i, j, NewLine(at.indent, key, scalar), seen);
  }

  /** What is replaced is the key's value, whole, exactly unless it is cut short; and where the edit sees no value
      there is none exactly when the entry has no line of the key. */
  lemma ValueIsReplacedWholeIff(lines: seq<string>, id: string, key: string, scalar: string)
    requires GoodKey(key) && Edited(lines, id, key, scalar).Some?
    ensures Glimpse(lines, id, key).Some? ==>
              (Value(lines, id, key) == Glimpse(lines, id, key) <==> !CutsShort(lines, id, key))
    ensures Glimpse(lines, id, key).None? ==>
              (Value(lines, id, key).None? <==>
                 forall m: nat :: !OwnedKey(lines, Find(Yaml(id), lines).value, Within(Yaml(id)), Key(key), m))
  {
    OldValueIsReplacedWhole(Yaml(id), lines, Key(key), Key("sources"), Line(key, scalar));
    var at := Find(Yaml(id), lines).value;
    var (i, j) := Gap(Yaml(id), lines, at, Key(key), Key("sources"));
    AnEdit(lines, id, key, scalar);
    ReplacedWholeIff(Yaml(id), lines, at, i, j, Key(key), Key("sources"), NewLine(at.indent, key, scalar));
  }

  lemma AnEdit(lines: seq<string>, id: string, key: string, scalar: string)
    requires GoodKey(key) && Edited(lines, id, key, scalar).Some?
    ensures var at := Find(Yaml(id), lines).value;
            var (i, j) := Gap(Yaml(id), lines, at, Key(key), Key("sources"));
            && Edits(Yaml(id), lines, at, i, j, Key(key), Key("sources"), NewLine(at.indent, key, scalar))
            && Edited(lines, id, key, scalar).value == Spliced(lines, i, j, NewLine(at.indent, key, scalar))
  {
    IsAKey(id, key);
    IsAKey(id, "sources");
    NewLineIsKey(Find(Yaml(id), lines).value.indent, key, scalar);
  }

  /** The key then reads back as the new line alone, at the entry's depth: as far as the edit sees always, and with
      all that goes on with it, exactly unless the old value, or another, is cut short. */
  lemma SetReadsBack(lines: seq<string>, id: string, key: string, scalar: string)
    requires GoodKey(key) && Edited(lines, id, key, scalar).Some?
    ensures var at, out := Find(Yaml(id), lines).value, Edited(lines, id, key, scalar).value;
            && Glimpse(out, id, key) == Some([NewLine(at.indent, key, scalar)])
            && (Value(out, id, key) == Some([NewLine(at.indent, key, scalar)]) <==> !CutsShort(lines, id, key))
  {
    IsAKey(id, key);
    IsAKey(id, "sources");
    LineIsOfTheKey(key, scalar);
    SetThenRead(Yaml(id), lines, Key(key), Key("sources"), Line(key, scalar));
    ValueReadsBack(lines, id, key, scalar);
  }

  lemma ValueReadsBack(lines: seq<string>, id: string, key: string, scalar: string)
    requires GoodKey(key) && Edited(lines, id, key, scalar).Some?
    ensures var at, out := Find(Yaml(id), lines).value, Edited(lines, id, key, scalar).value;
            Value(out, id, key) == Some([NewLine(at.indent, key, scalar)]) <==> !CutsShort(lines, id, key)
  {
    var at := Find(Yaml(id), lines).value;
    var (i, j) := Gap(Yaml(id), lines, at, Key(key), Key("sources"));
    AnEdit(lines, id, key, scalar);
    ReadsBackIff(Yaml(id), lines, at, i, j, Key(key), Key("sources"), NewLine(at.indent, key, scalar));
  }

  /** Every other key of the entry reads as it did: as far as the edit sees always, and whole exactly unless the new
      line cuts it in two. */
  lemma OtherKeysReadAsBefore(lines: seq<string>, id: string, key: string, scalar: string, other: string)
    requires GoodKey(key) && GoodKey(other) && other != key && Edited(lines, id, key, scalar).Some?
    ensures Glimpse(Edited(lines, id, key, scalar).value, id, other) == Glimpse(lines, id, other)
    ensures Value(Edited(lines, id, key, scalar).value, id, other) == Value(lines, id, other) <==>
              !CutsInTwo(lines, id, key, other)
  {
    IsAKey(id, key);
    IsAKey(id, "sources");
    IsAKey(id, other);
    KeysDiffer(key, other);
    LineIsOfTheKey(key, scalar);
    OtherKeysStay(Yaml(id), lines, Key(key), Key("sources"), Line(key, scalar), Key(other));
    ValueIsAsBefore(lines, id, key, scalar, other);
  }

  lemma ValueIsAsBefore(lines: seq<string>, id: string, key: string, scalar: string, other: string)
    requires GoodKey(key) && Edited(lines, id, key, scalar).Some?
    requires IsKey(Yaml(id), Key(other)) && Differ(Key(key), Key(other))
    ensures Value(Edited(lines, id, key, scalar).value, id, other) == Value(lines, id, other) <==>
              !CutsInTwo(lines, id, key, other)
  {
    var at := Find(Yaml(id), lines).value;
    var (i, j) := Gap(Yaml(id), lines, at, Key(key), Key("sources"));
    AnEdit(lines, id, key, scalar);
    OtherStaysIff(Yaml(id), lines, at, i, j, Key(key), Key("sources"), NewLine(at.indent, key, scalar), Key(other));
  }

  /** What the edit is for, that the key has the new value and every other key its own, it does exactly unless it
      cuts a value short. */
  lemma EditIsCleanIff(lines: seq<string>, id: string, key: string, scalar: string)
    requires GoodKey(key) && Edited(lines, id, key, scalar).Some?
    ensures var at, out := Find(Yaml(id), lines).value, Edited(lines, id, key, scalar).value;
            && Value(out, id, key) == Some([NewLine(at.indent, key, scalar)])
            && (forall other :: GoodKey(other) && other != key ==> Value(out, id, other) == Value(lines, id, other))
            <==> !CutsShort(lines, id, key)
  {
    ValueReadsBack(lines, id, key, scalar);
    if !CutsShort(lines, id, key) {
      forall other | GoodKey(other) && other != key
        ensures Value(Edited(lines, id, key, scalar).value, id, other) == Value(lines, id, other)
      {
        IsAKey(id, other);
        KeysDiffer(key, other);
        ValueIsAsBefore(lines, id, key, scalar, other);
      }
    }
  }

  /** The last edit of a key stands, whatever was set before; so setting a value twice is setting it once. */
  lemma LastEditStands(lines: seq<string>, id: string, key: string, first: string, second: string)
    requires GoodKey(key) && Edited(lines, id, key, first).Some?
    ensures Edited(Edited(lines, id, key, first).value, id, key, second) == Edited(lines, id, key, second)
  {
    IsAKey(id, key);
    IsAKey(id, "sources");
    LineIsOfTheKey(key, first);
    SetTwice(Yaml(id), lines, Key(key), Key("sources"), Line(key, first), Line(key, second));
  }

  /** After the edit the entry has exactly one line of the key, exactly when before it no line of the key that it
      has stood below a blank line, and no two above. */
  lemma OneLineOfTheKeyIff(lines: seq<string>, id: string, key: string, scalar: string)
    requires GoodKey(key) && Edited(lines, id, key, scalar).Some?
    ensures var out, at := Edited(lines, id, key, scalar).value, Find(Yaml(id), lines).value;
            Find(Yaml(id), out).Some?
            && (OneOwned(out, Find(Yaml(id), out).value, Within(Yaml(id)), Key(key)) <==>
                  AllSeen(lines, at, Within(Yaml(id)), Key(key)))
  {
    var at := Find(Yaml(id), lines).value;
    IsAKey(id, key);
    IsAKey(id, "sources");
    LineIsOfTheKey(key, scalar);
    SetThenRead(Yaml(id), lines, Key(key), Key("sources"), Line(key, scalar));
    OneOwnedIff(Yaml(id), lines, at, Within(Yaml(id)), Key(key), Key("sources"), Line(key, scalar)(at.indent));
  }

  lemma OpeningLine()
    ensures Opens("- id: a", "a") && Depth("- id: a") == 0
  {
    var rest := "- id: a";
    assert StripLeft(rest) == rest && "- id: " <= rest && rest[6..] == "a";
    assert QUOTES[0] + "a" + QUOTES[0] == "a" && "a"[|"a"|..] == "" && Strip("") == "";
  }

  lemma ValueLine(line: string, rest: string)
    requires line == Pad(2) + rest && rest != "" && !IsSpace(rest[0])
    ensures Depth(line) == 2 && Strip(line) != ""
  {
    PadDepth(2, rest);
    StripRightKeeps(rest);
  }

  /** A model stands under a blank line: it is added once more, and the other stays. */
  lemma BlankLineHidesAKey(lines: seq<string>)
    requires lines == ["- id: a", "  name: A", "", "  model: X"]
    ensures Edited(lines, "a", "model", "Y") == Some(["- id: a", "  name: A", "  model: Y", "", "  model: X"])
    ensures Find(Yaml("a"), lines) == Some(Place(0, 2, 2))
    ensures OwnedKey(lines, Place(0, 2, 2), Within(Yaml("a")), Key("model"), 3)
  {
    assert Pad(2) == "  ";
    ValueLine(lines[1], "name: A");
    OpeningLine();
    FoundThere(lines, "a");
    KeyNotSeen(lines, "model");
    KeyNotSeen(lines, "sources");
    AddedThere(lines, "a", "model", "Y");
    NewModelLine();
    KeyThere(lines);
  }

  lemma NewModelLine()
    ensures NewLine(2, "model", "Y") == "  model: Y"
  {
    assert Pad(2) == "  ";
  }

  lemma FoundThere(lines: seq<string>, id: string)
    requires |lines| == 4 && Opens(lines[0], id) && Depth(lines[0]) == 0
    requires Inside(lines[1], 2) && !Inside(lines[2], 2)
    ensures Find(Yaml(id), lines) == Some(Place(0, 2, 2))
  {
    forall m | 0 < m < 2 ensures (lines[m], 2) in Yaml(id).inside {
      assert m == 1;
    }
    FindIs(Yaml(id), lines, Place(0, 2, 2));
  }

  lemma AddedThere(lines: seq<string>, id: string, key: string, scalar: string)
    requires |lines| == 4 && Find(Yaml(id), lines) == Some(Place(0, 2, 2))
    requires KeyAt(lines, Place(0, 2, 2), Key(key)) == 2 && KeyAt(lines, Place(0, 2, 2), Key("sources")) == 2
    ensures Edited(lines, id, key, scalar)
         == Some([lines[0], lines[1], NewLine(2, key, scalar), lines[2], lines[3]])
  {
    SetInAt(Yaml(id), lines, Place(0, 2, 2), 2, 2, Key(key), Key("sources"), Line(key, scalar));
    assert Spliced(lines, 2, 2, NewLine(2, key, scalar))
        == [lines[0], lines[1], NewLine(2, key, scalar), lines[2], lines[3]];
  }

  lemma KeyNotSeen(lines: seq<string>, key: string)
    requires lines == ["- id: a", "  name: A", "", "  model: X"] && key in {"model", "sources"}
    ensures KeyAt(lines, Place(0, 2, 2), Key(key)) == 2
  {
    var head := Pad(2) + key + ":";
    assert head[2] == key[0] && lines[1][2] == 'n';
    assert lines[1] !in At(Key(key), 2);
    FirstIs(lines, 1, 2, At(Key(key), 2), 2);
  }

  lemma KeyThere(lines: seq<string>)
    requires lines == ["- id: a", "  name: A", "", "  model: X"]
    ensures OwnedKey(lines, Place(0, 2, 2), Within(Yaml("a")), Key("model"), 3)
  {
    assert Pad(2) == "  " && Pad(2) + "model" + ":" == "  model:" && lines[3][..8] == "  model:";
    ValueLine(lines[1], "name: A");
    ValueLine(lines[3], "model: X");
    forall k | 0 < k <= 3 ensures lines[k] in At(Within(Yaml("a")), 2) {
      assert lines[k] == lines[1] || lines[k] == lines[2] || lines[k] == lines[3];
    }
  }
}
