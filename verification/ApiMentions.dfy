/** The names that references name, told without collecting them, and that the schemas so named are kept. */
module ApiMentions {
  import opened ApiContract

  /** A reference to a schema by its name: what follows its last slash. */
  predicate RefersTo(text: string, name: string) {
    PREFIX <= text && '/' !in name && |name| < |text| && text[|text| - |name| - 1] == '/'
    && text[|text| - |name|..] == name
  }

  /** Somewhere in a node a schema is referred to by this name. */
  ghost predicate Mentions(node: Json, name: string) {
    match node
    case Obj(fields) =>
      (Get(fields, "$ref").Str? && RefersTo(Get(fields, "$ref").text, name))
      || exists k :: k in fields && Mentions(fields[k], name)
    case Arr(items) => exists i :: 0 <= i < |items| && Mentions(items[i], name)
    case _ => false
  }

  lemma {:induction false} LastSegmentIs(s: string, name: string)
    requires '/' in s && '/' !in name
    ensures LastSegment(s) == name <==>
              |name| < |s| && s[|s| - |name| - 1] == '/' && s[|s| - |name|..] == name
    decreases |s|
  {
    var n := |s| - 1;
    if s[n] != '/' {
      var front := s[..n];
      assert s == front + [s[n]];
      if name == "" {
        LastSegmentIs(front, "");
      } else {
        var shorter := name[..|name| - 1];
        assert name == shorter + [name[|name| - 1]];
        LastSegmentIs(front, shorter);
        if |name| < |s| {
          SegmentOn(s, front, name, shorter);
        }
      }
    } else if name != "" && |name| < |s| {
      assert s[|s| - |name|..][|name| - 1] == s[n];
    }
  }

  lemma SegmentOn(s: string, front: string, name: string, shorter: string)
    requires s != "" && front == s[..|s| - 1] && name != "" && shorter == name[..|name| - 1] && |name| < |s|
    ensures s[|s| - |name|..] == name <==>
              front[|front| - |shorter|..] == shorter && s[|s| - 1] == name[|name| - 1]
  {
    var tail := s[|s| - |name|..];
    assert tail == front[|front| - |shorter|..] + [s[|s| - 1]];
    assert name == shorter + [name[|name| - 1]];
    assert tail[..|tail| - 1] == front[|front| - |shorter|..];
  }

  lemma {:induction false} NoSlash(s: string)
    ensures '/' !in LastSegment(s)
    decreases |s|
  {
    if s != "" && s[|s| - 1] != '/' {
      NoSlash(s[..|s| - 1]);
    }
  }

  lemma PrefixHasSlash(text: string)
    requires PREFIX <= text
    ensures '/' in text
  {
    assert text[0] == PREFIX[0] && text[1] == PREFIX[1] == '/';
  }

  lemma RefNameIs(node: Json, name: string)
    ensures name in RefName(node) <==> node.Str? && RefersTo(node.text, name)
  {
    if node.Str? && PREFIX <= node.text {
      PrefixHasSlash(node.text);
      NoSlash(node.text);
      if '/' !in name {
        LastSegmentIs(node.text, name);
      }
    }
  }

  /** The references found in a node are to the names that it mentions. */
  lemma {:induction false} RefsAreMentions(node: Json, name: string)
    ensures name in Refs(node) <==> Mentions(node, name)
    decreases node
  {
    match node
    case Obj(fields) =>
      RefNameIs(Get(fields, "$ref"), name);
      forall k | k in fields ensures name in Refs(fields[k]) <==> Mentions(fields[k], name) {
        RefsAreMentions(fields[k], name);
      }
    case Arr(items) =>
      forall i | 0 <= i < |items| ensures name in Refs(items[i]) <==> Mentions(items[i], name) {
        RefsAreMentions(items[i], name);
      }
    case _ =>
  }

  // ------------------------------------------------------------------ what is mentioned is kept

  lemma KeptIff(paths: Json, schemas: map<string, Json>, needed: set<string>, name: string)
    requires paths.Obj? && AllObjects(schemas) && name in schemas && name != "default"
    ensures var kept := Components(Rewrite(Subset(paths, schemas, needed)));
            kept.Obj? && (name in kept.fields <==> name in needed)
  {
    SubsetComponents(paths, schemas, needed);
  }

  /** A schema that there is, other than `default`, that the operations mention is kept. */
  lemma MentionedIsKept(paths: Json, schemas: map<string, Json>, needed: set<string>, name: string)
    requires paths.Obj? && AllObjects(schemas) && Refs(paths) <= needed
    requires name in schemas && name != "default" && Mentions(paths, name)
    ensures var kept := Components(Rewrite(Subset(paths, schemas, needed))); kept.Obj? && name in kept.fields
  {
    KeptIff(paths, schemas, needed, name);
    RefsAreMentions(paths, name);
  }

  /** So is one that a kept schema mentions. */
  lemma MentionedByKeptIsKept(paths: Json, schemas: map<string, Json>, needed: set<string>, from: string, name: string)
    requires paths.Obj? && AllObjects(schemas) && Closed(schemas, needed)
    requires name in schemas && name != "default" && from in schemas && Mentions(schemas[from], name)
    ensures var kept := Components(Rewrite(Subset(paths, schemas, needed)));
            kept.Obj? && (from in kept.fields ==> name in kept.fields)
  {
    KeptIff(paths, schemas, needed, name);
    SubsetComponents(paths, schemas, needed);
    RefsAreMentions(schemas[from], name);
    if from in needed {
      assert name in SchemaRefs(schemas, from);
    }
  }

  /** What is left, rewritten, mentions no schema that there is, other than `default`, but what is kept. */
  lemma NothingDangles(paths: Json, schemas: map<string, Json>, needed: set<string>, name: string)
    requires paths.Obj? && AllObjects(schemas) && Refs(paths) <= needed && Closed(schemas, needed)
    requires name in schemas && name != "default" && Mentions(Rewrite(Subset(paths, schemas, needed)), name)
    ensures var kept := Components(Rewrite(Subset(paths, schemas, needed))); kept.Obj? && name in kept.fields
  {
    SubsetIsComplete(paths, schemas, needed);
    RefsAreMentions(Rewrite(Subset(paths, schemas, needed)), name);
  }

  // ------------------------------------------------------------------ exactly what is reached is kept

  ghost predicate Next(schemas: map<string, Json>, from: string, name: string) {
    from in schemas && Mentions(schemas[from], name)
  }

  ghost predicate Follows(schemas: map<string, Json>, way: seq<string>, i: nat) {
    0 < i < |way| && Next(schemas, way[i - 1], way[i])
  }

  /** The names, one after another, by which the operations come to a schema. */
  ghost predicate Comes(paths: Json, schemas: map<string, Json>, way: seq<string>) {
    way != [] && Mentions(paths, way[0]) && forall i :: 0 < i < |way| ==> Follows(schemas, way, i)
  }

  ghost predicate IsReached(paths: Json, schemas: map<string, Json>, name: string) {
    exists way :: Comes(paths, schemas, way) && way[|way| - 1] == name
  }

  lemma {:induction false} ComesToNeeded(paths: Json, schemas: map<string, Json>, needed: set<string>,
                                         way: seq<string>)
    requires Refs(paths) <= needed && Closed(schemas, needed) && Comes(paths, schemas, way)
    ensures way[|way| - 1] in needed
    decreases |way|
  {
    var n := |way| - 1;
    if n == 0 {
      RefsAreMentions(paths, way[0]);
    } else {
      var front := way[..n];
      assert forall i :: 0 < i < n ==> Follows(schemas, way, i) ==> Follows(schemas, front, i);
      ComesToNeeded(paths, schemas, needed, front);
      assert Follows(schemas, way, n);
      RefsAreMentions(schemas[way[n - 1]], way[n]);
      assert way[n] in SchemaRefs(schemas, way[n - 1]);
    }
  }

  lemma MentionedIsReached(paths: Json, schemas: map<string, Json>, name: string)
    requires name in Refs(paths)
    ensures IsReached(paths, schemas, name)
  {
    RefsAreMentions(paths, name);
    assert Comes(paths, schemas, [name]) && [name][|[name]| - 1] == name;
  }

  lemma NextIsReached(paths: Json, schemas: map<string, Json>, from: string, name: string)
    requires IsReached(paths, schemas, from) && name in SchemaRefs(schemas, from)
    ensures IsReached(paths, schemas, name)
  {
    RefsAreMentions(schemas[from], name);
    var way :| Comes(paths, schemas, way) && way[|way| - 1] == from;
    var on := way + [name];
    forall i | 0 < i < |on| ensures Follows(schemas, on, i) {
      assert i < |way| ==> Follows(schemas, way, i);
      assert Next(schemas, from, name);
    }
    assert Comes(paths, schemas, on) && on[|on| - 1] == name;
  }

  /** The least set that is closed under references holds exactly the names that the operations come to. */
  lemma NeededIff(paths: Json, schemas: map<string, Json>, needed: set<string>, name: string)
    requires Refs(paths) <= needed && Closed(schemas, needed)
    requires forall other :: Refs(paths) <= other && Closed(schemas, other) ==> needed <= other
    ensures name in needed <==> IsReached(paths, schemas, name)
  {
    if IsReached(paths, schemas, name) {
      var way :| Comes(paths, schemas, way) && way[|way| - 1] == name;
      ComesToNeeded(paths, schemas, needed, way);
    }
    var reached := set n | n in needed && IsReached(paths, schemas, n);
    forall n | n in Refs(paths) ensures n in reached {
      MentionedIsReached(paths, schemas, n);
    }
    forall from | from in reached ensures SchemaRefs(schemas, from) <= reached {
      forall n | n in SchemaRefs(schemas, from) ensures n in reached {
        NextIsReached(paths, schemas, from, n);
      }
    }
    assert Refs(paths) <= reached && Closed(schemas, reached);
  }
}
