/** A file whose edit cuts a text in two, and leaves the end of one behind. */
module BlockInputs {
  import opened BlockEdit
  import opened Blocks
  import opened Scans
  import opened Texts
  import opened WholeValues
  import opened Wrappers

  const NOTES := "  notes: |"
  const FIRST := "    first"
  const SECOND := "    second"

  /** The one entry of the file stands on its first three lines, as far as the edit sees. */
  const FOUND := Place(0, 2, 3)

  /** A text of two paragraphs, as the edit tells lines apart. */
  ghost predicate TwoParagraphs(lines: seq<string>) {
    && |lines| == 5 && Opens(lines[0], "a") && Depth(lines[0]) == 0
    && KeyLine(lines[1], 2, "notes") && !KeyLine(lines[1], 2, "model") && !KeyLine(lines[1], 2, "sources")
    && Depth(lines[1]) == 2 && Strip(lines[1]) != "" && !Continues(lines[1], 2)
    && Depth(lines[2]) == 4 && Strip(lines[2]) != "" && Strip(lines[3]) == ""
    && Depth(lines[4]) == 4 && Strip(lines[4]) != ""
  }

  lemma DeepLine(line: string, rest: string)
    requires line == Pad(4) + rest && rest != "" && !IsSpace(rest[0])
    ensures Depth(line) == 4 && Strip(line) != ""
  {
    PadDepth(4, rest);
    StripRightKeeps(rest);
  }

  lemma Pads()
    ensures Pad(2) == "  " && Pad(4) == "    "
  {
    assert Pad(1) == " " && Pad(2) == "  " && Pad(3) == "   ";
  }

  lemma NotesLine()
    ensures KeyLine(NOTES, 2, "notes") && Depth(NOTES) == 2 && Strip(NOTES) != "" && !Continues(NOTES, 2)
  {
    Pads();
    assert Pad(2) + "notes" + ":" == "  notes:" && NOTES[..8] == "  notes:";
    KeyLineIsAKey(NOTES, 2, "notes");
  }

  lemma NoOtherKey(key: string)
    requires key in {"model", "sources"}
    ensures !KeyLine(NOTES, 2, key)
  {
    Pads();
    var head := Pad(2) + key + ":";
    assert head[2] == key[0] && NOTES[2] == 'n';
  }

  lemma Paragraphs()
    ensures Depth(FIRST) == 4 && Strip(FIRST) != "" && Depth(SECOND) == 4 && Strip(SECOND) != ""
  {
    Pads();
    assert FIRST == Pad(4) + "first" && SECOND == Pad(4) + "second";
    DeepLine(FIRST, "first");
    DeepLine(SECOND, "second");
  }

  lemma Found(lines: seq<string>)
    requires TwoParagraphs(lines)
    ensures Find(Yaml("a"), lines) == Some(FOUND)
  {
    forall m | 0 < m < 3 ensures (lines[m], 2) in Yaml("a").inside {
      assert m == 1 || m == 2;
    }
    FindIs(Yaml("a"), lines, FOUND);
  }

  lemma DeeperIsNoKey(line: string, key: string)
    requires Depth(line) == 4 && GoodKey(key)
    ensures !KeyLine(line, 2, key)
  {
    if KeyLine(line, 2, key) {
      KeyLineIsAKey(line, 2, key);
    }
  }

  lemma ModelGap(lines: seq<string>)
    requires TwoParagraphs(lines)
    ensures Gap(Yaml("a"), lines, FOUND, Key("model"), Key("sources")) == (3, 3)
  {
    NotSeen(lines, "model");
    NotSeen(lines, "sources");
  }

  lemma NotSeen(lines: seq<string>, key: string)
    requires |lines| == 5 && !KeyLine(lines[1], 2, key) && Depth(lines[2]) == 4 && GoodKey(key)
    ensures KeyAt(lines, FOUND, Key(key)) == 3
  {
    DeeperIsNoKey(lines[2], key);
    forall m | 1 <= m < 3 ensures lines[m] !in At(Key(key), 2) {
      assert m == 1 || m == 2;
    }
    FirstIs(lines, 1, 3, At(Key(key), 2), 3);
  }

  lemma NotesGap(lines: seq<string>)
    requires |lines| == 5 && KeyLine(lines[1], 2, "notes") && Continues(lines[2], 2)
    ensures Gap(Yaml("a"), lines, FOUND, Key("notes"), Key("sources")) == (1, 3)
    ensures IsLast(Yaml("a"), lines, FOUND, Key("notes"))
  {
    assert lines[1] in At(Key("notes"), 2) && lines[2] !in At(Afresh(), 2);
    FirstIs(lines, 1, 3, At(Key("notes"), 2), 1);
    FirstIs(lines, 2, 3, At(Afresh(), 2), 3);
  }

  lemma TextGoesOn(lines: seq<string>)
    requires TwoParagraphs(lines)
    ensures GoesOn(Yaml("a"), lines, FOUND)
  {
    FirstIs(lines, 3, 5, Filled(Yaml("a")), 4);
  }

  lemma EditedThere(lines: seq<string>, key: string, scalar: string, i: nat, j: nat)
    requires Find(Yaml("a"), lines) == Some(FOUND) && i <= j <= |lines|
    requires Gap(Yaml("a"), lines, FOUND, Key(key), Key("sources")) == (i, j)
    ensures Edited(lines, "a", key, scalar) == Some(lines[..i] + [NewLine(2, key, scalar)] + lines[j..])
  {
    SetInAt(Yaml("a"), lines, FOUND, i, j, Key(key), Key("sources"), Line(key, scalar));
  }

  /** Setting a model puts it between the paragraphs, and it takes the second; and a text that is set anew keeps the
      second of the old one. */
  lemma ParagraphsAreCut(lines: seq<string>)
    requires TwoParagraphs(lines)
    ensures Edited(lines, "a", "model", "Y") == Some(lines[..3] + [NewLine(2, "model", "Y")] + lines[3..])
    ensures Edited(lines, "a", "notes", "Z") == Some(lines[..1] + [NewLine(2, "notes", "Z")] + lines[3..])
    ensures Value(Edited(lines, "a", "model", "Y").value, "a", "notes") != Value(lines, "a", "notes")
    ensures Value(Edited(lines, "a", "model", "Y").value, "a", "model") != Some([NewLine(2, "model", "Y")])
    ensures Value(Edited(lines, "a", "notes", "Z").value, "a", "notes") != Some([NewLine(2, "notes", "Z")])
  {
    Found(lines);
    ModelGap(lines);
    NotesGap(lines);
    TextGoesOn(lines);
    EditedThere(lines, "model", "Y", 3, 3);
    EditedThere(lines, "notes", "Z", 1, 3);
    ValueReadsBack(lines, "a", "model", "Y");
    ValueReadsBack(lines, "a", "notes", "Z");
    OtherKeysReadAsBefore(lines, "a", "model", "Y", "notes");
  }

  lemma ThereIsOne(lines: seq<string>)
    requires lines == ["- id: a", NOTES, FIRST, "", SECOND]
    ensures TwoParagraphs(lines)
  {
    OpeningLine();
    NotesLine();
    NoOtherKey("model");
    NoOtherKey("sources");
    Paragraphs();
  }

  /** There is such a file. */
  lemma BlankLineCutsAValue(lines: seq<string>)
    requires lines == ["- id: a", "  notes: |", "    first", "", "    second"]
    ensures Edited(lines, "a", "model", "Y") == Some(lines[..3] + ["  model: Y"] + lines[3..])
    ensures Value(lines[..3] + ["  model: Y"] + lines[3..], "a", "notes") != Value(lines, "a", "notes")
    ensures Value(lines[..3] + ["  model: Y"] + lines[3..], "a", "model") != Some(["  model: Y"])
    ensures Edited(lines, "a", "notes", "Z") == Some(lines[..1] + ["  notes: Z"] + lines[3..])
    ensures Value(lines[..1] + ["  notes: Z"] + lines[3..], "a", "notes") != Some(["  notes: Z"])
  {
    ThereIsOne(lines);
    ParagraphsAreCut(lines);
    NewLines();
  }

  lemma NewLines()
    ensures NewLine(2, "model", "Y") == "  model: Y" && NewLine(2, "notes", "Z") == "  notes: Z"
  {
    Pads();
  }
}
