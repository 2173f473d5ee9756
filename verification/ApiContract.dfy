/**
 The field client's part of the API contract: the schemas its operations reach, and the rewriting that
 makes a schema something a client generator can type.
 */
module ApiContract {
  datatype Json =
    | Null
    | Bool(value: bool)
    | Number(text: string)
    | Str(text: string)
    | Arr(items: seq<Json>)
    | Obj(fields: map<string, Json>)

  function Get(fields: map<string, Json>, key: string): Json {
    if key in fields then fields[key] else Null
  }

  function Without(fields: map<string, Json>, keys: set<string>): map<string, Json> {
    map k | k in fields && k !in keys :: fields[k]
  }

  // ------------------------------------------------------------------ references

  const PREFIX := "#/components/schemas/"

  function LastSegment(s: string): string {
    if s == "" || s[|s| - 1] == '/' then "" else LastSegment(s[..|s| - 1]) + [s[|s| - 1]]
  }

  function RefName(node: Json): set<string> {
    if node.Str? && PREFIX <= node.text then {LastSegment(node.text)} else {}
  }

  /** The schemas a node refers to, anywhere in it. */
  function Refs(node: Json): set<string>
    decreases node, 1
  {
    match node
    case Obj(fields) => RefName(Get(fields, "$ref")) + set k, r | k in fields && r in Refs(fields[k]) :: r
    case Arr(items) => set i, r | 0 <= i < |items| && r in Refs(items[i]) :: r
    case _ => {}
  }

  function RefsUnder(fields: map<string, Json>, keys: set<string>): set<string> {
    set k, r | k in fields && k in keys && r in Refs(fields[k]) :: r
  }

  function RefsAmong(items: seq<Json>): set<string> {
    set i, r | 0 <= i < |items| && r in Refs(items[i]) :: r
  }

  lemma OneMoreKey(fields: map<string, Json>, keys: set<string>, k: string)
    requires k in fields
    ensures RefsUnder(fields, keys + {k}) == RefsUnder(fields, keys) + Refs(fields[k])
  {
  }

  lemma OneMoreItem(items: seq<Json>, i: nat)
    requires i < |items|
    ensures RefsAmong(items[..i + 1]) == RefsAmong(items[..i]) + Refs(items[i])
  {
    var more, some := items[..i + 1], items[..i];
    forall r | r in RefsAmong(more) ensures r in RefsAmong(some) + Refs(items[i]) {
      var j :| 0 <= j < |more| && r in Refs(more[j]);
      if j < i {
        assert some[j] == more[j];
      }
    }
    forall r | r in RefsAmong(some) + Refs(items[i]) ensures r in RefsAmong(more) {
      if r in Refs(items[i]) {
        assert more[i] == items[i];
      } else {
        var j :| 0 <= j < |some| && r in Refs(some[j]);
        assert more[j] == some[j];
      }
    }
  }

  /** Adds the references of a node to those found. */
  method CollectRefs(node: Json, found0: set<string>) returns (found: set<string>)
    ensures found == found0 + Refs(node)
    decreases node
  {
    found := found0;
    match node {
      case Obj(fields) =>
        found := found + RefName(Get(fields, "$ref"));
        var keys := fields.Keys;
        while keys != {}
          invariant keys <= fields.Keys
          invariant found == found0 + RefName(Get(fields, "$ref")) + RefsUnder(fields, fields.Keys - keys)
          decreases keys
        {
          var k :| k in keys;
          OneMoreKey(fields, fields.Keys - keys, k);
          found := CollectRefs(fields[k], found);
          keys := keys - {k};
          assert fields.Keys - keys == fields.Keys - (keys + {k}) + {k};
        }
        assert fields.Keys - {} == fields.Keys;
      case Arr(items) =>
        for i := 0 to |items|
          invariant found == found0 + RefsAmong(items[..i])
        {
          OneMoreItem(items, i);
          found := CollectRefs(items[i], found);
        }
        assert items[..|items|] == items;
      case _ =>
    }
  }

  function SchemaRefs(schemas: map<string, Json>, name: string): set<string> {
    if name in schemas then Refs(schemas[name]) else {}
  }

  ghost predicate Closed(schemas: map<string, Json>, names: set<string>) {
    forall name :: name in names ==> SchemaRefs(schemas, name) <= names
  }

  /** The least set that holds these names and, with each schema, the schemas it refers to. */
  method Reached(schemas: map<string, Json>, start: set<string>) returns (needed: set<string>)
    ensures start <= needed && Closed(schemas, needed)
    ensures forall other :: start <= other && Closed(schemas, other) ==> needed <= other
  {
    ghost var all := start + set name, r | name in schemas && r in Refs(schemas[name]) :: r;
    needed := start;
    while true
      invariant start <= needed <= all
      invariant forall other :: start <= other && Closed(schemas, other) ==> needed <= other
      decreases all - needed
    {
      var before := needed;
      needed := CollectAll(schemas, before);
      if needed == before {
        return;
      }
    }
  }

  function RefsOfAll(schemas: map<string, Json>, names: set<string>): set<string> {
    set name, r | name in names && r in SchemaRefs(schemas, name) :: r
  }

  lemma OneMoreName(schemas: map<string, Json>, names: set<string>, name: string)
    ensures RefsOfAll(schemas, names + {name}) == RefsOfAll(schemas, names) + SchemaRefs(schemas, name)
  {
  }

  /** One round: what the schemas named so far refer to. */
  method CollectAll(schemas: map<string, Json>, before: set<string>) returns (needed: set<string>)
    ensures needed == before + RefsOfAll(schemas, before)
  {
    needed := before;
    var names := before;
    while names != {}
      invariant names <= before
      invariant needed == before + RefsOfAll(schemas, before - names)
      decreases names
    {
      var name :| name in names;
      OneMoreName(schemas, before - names, name);
      assert before - (names - {name}) == (before - names) + {name};
      names := names - {name};
      if name in schemas {
        needed := CollectRefs(schemas[name], needed);
      }
    }
  }

  // ------------------------------------------------------------------ rewriting for generators

  const PRIMITIVES := {"string", "integer", "number", "boolean"}

  predicate Untyped(schema: Json) {
    schema.Obj? && schema.fields.Keys !! {"type", "$ref", "anyOf", "oneOf", "allOf", "enum"}
  }

  /** The options of a schema: those of anyOf, or of oneOf when it has none. */
  function Options(fields: map<string, Json>): seq<Json> {
    var any, one := Get(fields, "anyOf"), Get(fields, "oneOf");
    if any.Arr? && any.items != [] then any.items
    else if one.Arr? then one.items
    else []
  }

  predicate Nullable(schema: Json) {
    schema.Obj? &&
    (|| Get(schema.fields, "nullable") == Bool(true)
     || Get(schema.fields, "type") == Str("null")
     || exists i :: 0 <= i < |Options(schema.fields)| && Options(schema.fields)[i].Obj?
          && Get(Options(schema.fields)[i].fields, "type") == Str("null"))
  }

  predicate PrimitiveOption(o: Json) {
    o.Obj? && o.fields.Keys <= {"type"} && Get(o.fields, "type").Str? && Get(o.fields, "type").text in PRIMITIVES
  }

  /** One of several primitive types. */
  predicate PrimitiveUnion(any: Json) {
    && any.Arr? && |any.items| > 1
    && (forall i :: 0 <= i < |any.items| ==> PrimitiveOption(any.items[i]))
    && exists i, j :: 0 <= i < j < |any.items| && any.items[i] != any.items[j]
  }

  predicate UntypedOption(any: Json) {
    any.Arr? && exists i :: 0 <= i < |any.items| && Untyped(any.items[i])
  }

  function PropertyNamed(properties: map<string, Json>, name: Json): Json {
    if name.Str? then Get(properties, name.text) else Null
  }

  function NotNullable(properties: map<string, Json>, required: seq<Json>): (kept: seq<Json>)
    ensures forall r :: r in kept <==> r in required && !Nullable(PropertyNamed(properties, r))
  {
    if required == [] then []
    else
      (if Nullable(PropertyNamed(properties, required[0])) then [] else [required[0]])
      + NotNullable(properties, required[1..])
  }

  function DropPrimitiveUnion(fields: map<string, Json>): map<string, Json> {
    if PrimitiveUnion(Get(fields, "anyOf")) then Without(fields, {"anyOf"}) else fields
  }

  function DropNullableRequired(fields: map<string, Json>): map<string, Json> {
    var properties, required := Get(fields, "properties"), Get(fields, "required");
    if properties.Obj? && required.Arr? then
      var kept := NotNullable(properties.fields, required.items);
      if kept != [] then fields["required" := Arr(kept)] else Without(fields, {"required"})
    else fields
  }

  function DropDefault(fields: map<string, Json>): map<string, Json> {
    if Get(fields, "default").Obj? || ("enum" in fields && "default" in fields) then Without(fields, {"default"})
    else fields
  }

  function DropUntypedArray(fields: map<string, Json>): map<string, Json> {
    if Get(fields, "type") == Str("array") && Untyped(Get(fields, "items")) then Without(fields, {"type", "items"})
    else fields
  }

  function DropUntypedUnion(fields: map<string, Json>): map<string, Json> {
    if UntypedOption(Get(fields, "anyOf")) then Without(fields, {"anyOf"}) else fields
  }

  /** What is done to a node whose children have been rewritten. */
  function Settle(fields: map<string, Json>): map<string, Json> {
    DropUntypedUnion(DropUntypedArray(DropDefault(DropNullableRequired(fields))))
  }

  function Rewrite(node: Json): Json
    decreases node
  {
    match node
    case Obj(fields) =>
      var first := DropPrimitiveUnion(fields);
      Obj(Settle(map k | k in first :: Rewrite(fields[k])))
    case Arr(items) => Arr(seq(|items|, i requires 0 <= i < |items| => Rewrite(items[i])))
    case _ => node
  }

  /** What the children of a node became: those that were not dropped at once, rewritten. */
  ghost predicate Each(fields: map<string, Json>, children: map<string, Json>) {
    && children.Keys == DropPrimitiveUnion(fields).Keys
    && (forall k :: k in children ==> k in fields && children[k] == Rewrite(fields[k]))
  }

  lemma Children(fields: map<string, Json>) returns (children: map<string, Json>)
    ensures Each(fields, children) && Rewrite(Obj(fields)) == Obj(Settle(children))
  {
    var first := DropPrimitiveUnion(fields);
    children := map k | k in first :: Rewrite(fields[k]);
  }

  // ------------------------------------------------------------------ what the rewriting leaves

  /** A node has no list of untyped items, no untyped option, no object or enum default, and requires no
      property that may be null. */
  ghost predicate CleanFields(fields: map<string, Json>) {
    && !(Get(fields, "type") == Str("array") && Untyped(Get(fields, "items")))
    && !UntypedOption(Get(fields, "anyOf"))
    && !Get(fields, "default").Obj?
    && !("enum" in fields && "default" in fields)
    && (Get(fields, "properties").Obj? && Get(fields, "required").Arr? ==>
          && Get(fields, "required").items != []
          && forall r :: r in Get(fields, "required").items ==>
               !Nullable(PropertyNamed(Get(fields, "properties").fields, r)))
  }

  /** ... and from every node under it. */
  ghost predicate Clean(node: Json) {
    match node
    case Obj(fields) => CleanFields(fields) && forall k :: k in fields ==> Clean(fields[k])
    case Arr(items) => forall i :: 0 <= i < |items| ==> Clean(items[i])
    case _ => true
  }

  lemma SettleCleans(fields: map<string, Json>)
    ensures CleanFields(Settle(fields))
  {
    var a := DropNullableRequired(fields);
    var b := DropDefault(a);
    var c := DropUntypedArray(b);
    var d := DropUntypedUnion(c);
    assert Get(d, "properties") == Get(a, "properties") && Get(d, "required") == Get(a, "required");
    assert Get(d, "default") == Get(b, "default");
  }

  /** The same node, or a list of some of its items. */
  ghost predicate Fewer(a: Json, b: Json) {
    a == b || (a.Arr? && b.Arr? && forall r :: r in a.items ==> r in b.items)
  }

  /** Settling keeps or drops keys; only `required` gets another value, some of its own items. */
  lemma SettleKeeps(fields: map<string, Json>)
    ensures forall k :: k in Settle(fields) ==> k in fields && Fewer(Settle(fields)[k], fields[k])
    ensures Get(Settle(fields), "$ref") == Get(fields, "$ref")
  {
  }

  lemma CleanFewer(a: Json, b: Json)
    requires Fewer(a, b) && Clean(b)
    ensures Clean(a)
  {
    if a != b {
      forall i | 0 <= i < |a.items| ensures Clean(a.items[i]) {
        assert a.items[i] in b.items;
      }
    }
  }

  lemma SettledIsClean(children: map<string, Json>)
    requires forall k :: k in children ==> Clean(children[k])
    ensures Clean(Obj(Settle(children)))
  {
    var settled := Settle(children);
    SettleCleans(children);
    SettleKeeps(children);
    forall k | k in settled ensures Clean(settled[k]) {
      CleanFewer(settled[k], children[k]);
    }
  }

  /** In the rewritten document no node, at any depth, has a list of untyped items, an untyped option of a
      choice, an object or an enum default, or requires a property that may be null. */
  lemma {:induction false} RewriteIsClean(node: Json)
    ensures Clean(Rewrite(node))
    decreases node
  {
    match node
    case Obj(fields) =>
      var children := Children(fields);
      forall k | k in children ensures Clean(children[k]) {
        RewriteIsClean(fields[k]);
      }
      SettledIsClean(children);
    case Arr(items) =>
      forall i | 0 <= i < |items| ensures Clean(Rewrite(items[i])) {
        RewriteIsClean(items[i]);
      }
    case _ =>
  }

  /** The rewriting adds no reference. */
  lemma {:induction false} RewriteAddsNoReference(node: Json)
    ensures Refs(Rewrite(node)) <= Refs(node)
    decreases node
  {
    match node
    case Obj(fields) =>
      var children := Children(fields);
      var settled := Settle(children);
      SettleKeeps(children);
      assert RefName(Get(settled, "$ref")) <= RefName(Get(fields, "$ref"));
      forall k, r | k in settled && r in Refs(settled[k]) ensures r in Refs(node) {
        RewriteAddsNoReference(fields[k]);
        FewerItems(settled[k], children[k]);
        assert r in Refs(fields[k]);
      }
    case Arr(items) =>
      var rewritten := Rewrite(node).items;
      forall i, r | 0 <= i < |rewritten| && r in Refs(rewritten[i]) ensures r in Refs(node) {
        RewriteAddsNoReference(items[i]);
        assert r in Refs(items[i]);
      }
    case _ =>
  }

  lemma FewerItems(a: Json, b: Json)
    requires Fewer(a, b)
    ensures Refs(a) <= Refs(b)
  {
    if a != b {
      forall i, r | 0 <= i < |a.items| && r in Refs(a.items[i]) ensures r in Refs(b) {
        assert a.items[i] in b.items;
        var j :| 0 <= j < |b.items| && b.items[j] == a.items[i];
      }
    }
  }

  // ------------------------------------------------------------------ names that look like keywords

  ghost predicate AllObjects(fields: map<string, Json>) {
    forall k :: k in fields ==> fields[k].Obj?
  }

  lemma SettleNamed(children: map<string, Json>)
    requires AllObjects(children)
    ensures Settle(children) == Without(children, {"default"})
  {
    assert !Get(children, "required").Arr?;
    assert DropNullableRequired(children) == children;
    var kept := Without(children, {"default"});
    assert DropDefault(children) == kept;
    assert !Get(kept, "type").Str? && !Get(kept, "anyOf").Arr?;
  }

  /** Among named schemas, which are all objects, as a document's schemas and a schema's properties are, every
      name is kept but `default`. */
  lemma NamesKept(named: map<string, Json>)
    requires AllObjects(named)
    ensures Rewrite(Obj(named)).fields.Keys == named.Keys - {"default"}
    ensures forall k :: k in named && k != "default" ==> Rewrite(Obj(named)).fields[k] == Rewrite(named[k])
  {
    var children := Children(named);
    assert DropPrimitiveUnion(named) == named;
    SettleNamed(children);
  }

  /** A property called `default` is taken for an object default, and lost. */
  lemma DefaultPropertyIsLost(schema: Json)
    requires schema.Obj?
    ensures var properties := Obj(map["default" := schema]);
            Rewrite(properties) == Obj(map[])
  {
    NamesKept(map["default" := schema]);
    assert Rewrite(Obj(map["default" := schema])).fields.Keys == {};
    assert Rewrite(Obj(map["default" := schema])).fields == map[];
  }

  // ------------------------------------------------------------------ the subset

  /** The operations asked for and the schemas they reach, rewritten together. */
  method FieldSubset(paths: Json, schemas: map<string, Json>) returns (out: Json, needed: set<string>)
    requires paths.Obj? && AllObjects(schemas)
    ensures Refs(paths) <= needed && Closed(schemas, needed)
    ensures forall other :: Refs(paths) <= other && Closed(schemas, other) ==> needed <= other
    ensures out == Rewrite(Subset(paths, schemas, needed))
  {
    var start := CollectRefs(paths, {});
    needed := Reached(schemas, start);
    out := Rewrite(Subset(paths, schemas, needed));
  }

  function Subset(paths: Json, schemas: map<string, Json>, needed: set<string>): Json {
    var kept := map name | name in needed && name in schemas :: schemas[name];
    Obj(map["paths" := paths, "components" := Obj(map["schemas" := Obj(kept)])])
  }

  function Components(out: Json): Json {
    if out.Obj? && Get(out.fields, "components").Obj? then Get(Get(out.fields, "components").fields, "schemas")
    else Null
  }

  lemma SubsetRefs(paths: Json, schemas: map<string, Json>, needed: set<string>)
    requires paths.Obj? && AllObjects(schemas) && Refs(paths) <= needed && Closed(schemas, needed)
    ensures Refs(Subset(paths, schemas, needed)) <= needed
  {
    var kept := map name | name in needed && name in schemas :: schemas[name];
    var inner := map["schemas" := Obj(kept)];
    var outer := map["paths" := paths, "components" := Obj(inner)];
    forall k, r | k in kept && r in Refs(kept[k]) ensures r in needed {
      assert r in SchemaRefs(schemas, k);
    }
    RefsBounded(kept, needed);
    RefsBounded(inner, needed);
    RefsBounded(outer, needed);
  }

  lemma RefsBounded(fields: map<string, Json>, bound: set<string>)
    requires !Get(fields, "$ref").Str? && forall k, r :: k in fields && r in Refs(fields[k]) ==> r in bound
    ensures Refs(Obj(fields)) <= bound
  {
  }

  /** The subset is clean, holds exactly the schemas reached that there are, but for one called `default`, and
      every reference left in it to a schema that there is and is not so called is to one of them. */
  lemma SubsetIsComplete(paths: Json, schemas: map<string, Json>, needed: set<string>)
    requires paths.Obj? && AllObjects(schemas) && Refs(paths) <= needed && Closed(schemas, needed)
    ensures var out := Rewrite(Subset(paths, schemas, needed));
            && Clean(out)
            && Components(out).Obj?
            && Components(out).fields.Keys == needed * schemas.Keys - {"default"}
            && (forall name :: name in Components(out).fields && name in schemas ==>
                  Components(out).fields[name] == Rewrite(schemas[name]))
            && Get(out.fields, "paths") == Rewrite(paths)
            && forall r :: r in Refs(out) && r in schemas && r != "default" ==> r in Components(out).fields
  {
    var out := Rewrite(Subset(paths, schemas, needed));
    RewriteIsClean(Subset(paths, schemas, needed));
    SubsetComponents(paths, schemas, needed);
    SubsetPaths(paths, schemas, needed);
    RewriteAddsNoReference(Subset(paths, schemas, needed));
    SubsetRefs(paths, schemas, needed);
  }

  lemma SubsetComponents(paths: Json, schemas: map<string, Json>, needed: set<string>)
    requires paths.Obj? && AllObjects(schemas)
    ensures Components(Rewrite(Subset(paths, schemas, needed))).Obj?
    ensures Components(Rewrite(Subset(paths, schemas, needed))).fields.Keys == needed * schemas.Keys - {"default"}
    ensures forall name :: name in needed * schemas.Keys - {"default"} ==>
              Components(Rewrite(Subset(paths, schemas, needed))).fields[name] == Rewrite(schemas[name])
  {
    var kept := map name | name in needed && name in schemas :: schemas[name];
    var inner := map["schemas" := Obj(kept)];
    assert Components(Rewrite(Subset(paths, schemas, needed))) == Rewrite(Obj(kept)) by {
      NamedKept(map["paths" := paths, "components" := Obj(inner)], "components");
      NamedKept(inner, "schemas");
    }
    NamesKept(kept);
    assert kept.Keys == needed * schemas.Keys;
  }

  lemma SubsetPaths(paths: Json, schemas: map<string, Json>, needed: set<string>)
    requires paths.Obj? && AllObjects(schemas)
    ensures Get(Rewrite(Subset(paths, schemas, needed)).fields, "paths") == Rewrite(paths)
  {
    var kept := map name | name in needed && name in schemas :: schemas[name];
    NamedKept(map["paths" := paths, "components" := Obj(map["schemas" := Obj(kept)])], "paths");
  }

  lemma NamedKept(named: map<string, Json>, name: string)
    requires AllObjects(named) && name in named && name != "default"
    ensures Rewrite(Obj(named)).Obj? && Get(Rewrite(Obj(named)).fields, name) == Rewrite(named[name])
  {
    NamesKept(named);
    assert name in Rewrite(Obj(named)).fields.Keys;
  }
}
