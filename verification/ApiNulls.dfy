/**
 Which properties that may be null stay required. A property is judged after its schema has been rewritten, which
 may have dropped the choice that said so; exactly when, is told from the schema as given.
 */
module ApiNulls {
  import opened ApiChoices
  import opened ApiContract

  predicate NullOption(o: Json) {
    o.Obj? && Get(o.fields, "type") == Str("null")
  }

  predicate HasNull(options: seq<Json>) {
    exists i :: 0 <= i < |options| && NullOption(options[i])
  }

  predicate Choice(any: Json) {
    any.Arr? && any.items != []
  }

  function Alternatives(one: Json): seq<Json> {
    if one.Arr? then one.items else []
  }

  /** A schema that after the rewriting still says that it may be null. */
  ghost predicate NullableAfter(schema: Json) {
    schema.Obj? &&
    var any := Get(schema.fields, "anyOf");
    || Get(schema.fields, "nullable") == Bool(true)
    || Get(schema.fields, "type") == Str("null")
    || HasNull(if Choice(any) && !ChoiceGoes(any) then any.items else Alternatives(Get(schema.fields, "oneOf")))
  }

  /** A schema that may be null as only a choice says that goes. */
  ghost predicate NullByChoiceThatGoes(schema: Json) {
    schema.Obj? &&
    var any := Get(schema.fields, "anyOf");
    && Get(schema.fields, "nullable") != Bool(true)
    && Get(schema.fields, "type") != Str("null")
    && Choice(any) && HasNull(any.items) && ChoiceGoes(any)
    && !HasNull(Alternatives(Get(schema.fields, "oneOf")))
  }

  lemma NullableIs(schema: Json)
    ensures Nullable(schema) <==>
              schema.Obj? && (|| Get(schema.fields, "nullable") == Bool(true)
                              || Get(schema.fields, "type") == Str("null")
                              || HasNull(Options(schema.fields)))
  {
    if schema.Obj? && HasNull(Options(schema.fields)) {
      var i :| 0 <= i < |Options(schema.fields)| && NullOption(Options(schema.fields)[i]);
    }
  }

  /** What says nothing but itself is rewritten to itself, and nothing else is. */
  lemma PlainStays(node: Json)
    ensures Rewrite(node) == Bool(true) <==> node == Bool(true)
    ensures Rewrite(node) == Str("null") <==> node == Str("null")
    ensures Rewrite(node).Arr? <==> node.Arr?
    ensures node.Arr? ==> |Rewrite(node).items| == |node.items|
  {
  }

  lemma NullOptionStays(o: Json)
    ensures NullOption(Rewrite(o)) <==> NullOption(o)
  {
    if o.Obj? {
      var out := Outcome(o.fields);
      if "type" in o.fields {
        PlainStays(o.fields["type"]);
      }
    }
  }

  lemma HasNullStays(options: Json)
    requires options.Arr?
    ensures HasNull(Rewrite(options).items) <==> HasNull(options.items)
  {
    forall i | 0 <= i < |options.items|
      ensures NullOption(Rewrite(options).items[i]) <==> NullOption(options.items[i])
    {
      NullOptionStays(options.items[i]);
    }
    if HasNull(options.items) {
      var i :| 0 <= i < |options.items| && NullOption(options.items[i]);
      assert NullOption(Rewrite(options).items[i]);
    }
  }

  const TOUCHED := {"type", "items", "required", "default", "anyOf"}

  lemma UntouchedSettle(children: map<string, Json>)
    ensures OthersAlike(children, Settle(children), TOUCHED)
    ensures Get(Settle(children), "required") == Get(DropNullableRequired(children), "required")
  {
    var a := DropNullableRequired(children);
    var b := DropDefault(a);
    var c := DropUntypedArray(b);
    RequiredStep(children);
    DefaultStep(a);
    ArrayStep(b);
    UnionStep(c);
    StepsAlike(children, a, b, c, DropUntypedUnion(c));
  }

  lemma StepsAlike(children: map<string, Json>, a: map<string, Json>, b: map<string, Json>, c: map<string, Json>,
                   out: map<string, Json>)
    requires RequiredDone(children, a) && DefaultDone(a, b) && ArrayDone(b, c) && UnionDone(c, out)
    ensures OthersAlike(children, out, TOUCHED) && Get(out, "required") == Get(a, "required")
  {
    forall k | k !in TOUCHED ensures (k in out <==> k in children) && Get(out, k) == Get(children, k) {
      assert k !in {"required"} && k !in {"default"} && k !in {"type", "items"} && k !in {"anyOf"};
    }
    assert "required" !in {"default"} && "required" !in {"type", "items"} && "required" !in {"anyOf"};
  }

  lemma WordsStay(fields: map<string, Json>, children: map<string, Json>, out: map<string, Json>)
    requires Each(fields, children) && KeywordsSettled(children, out) && OthersAlike(children, out, TOUCHED)
    ensures Get(out, "nullable") == Bool(true) <==> Get(fields, "nullable") == Bool(true)
    ensures Get(out, "type") == Str("null") <==> Get(fields, "type") == Str("null")
  {
    assert "nullable" !in TOUCHED;
    PlainStays(Get(fields, "nullable"));
    PlainStays(Get(fields, "type"));
  }

  lemma AlternativesStay(fields: map<string, Json>, children: map<string, Json>, out: map<string, Json>)
    requires Each(fields, children) && OthersAlike(children, out, TOUCHED)
    ensures HasNull(Alternatives(Get(out, "oneOf"))) <==> HasNull(Alternatives(Get(fields, "oneOf")))
  {
    assert "oneOf" !in TOUCHED;
    var one := Get(fields, "oneOf");
    PlainStays(one);
    if one.Arr? {
      HasNullStays(one);
    }
  }

  lemma ChoiceStays(fields: map<string, Json>, children: map<string, Json>, out: map<string, Json>)
    requires Each(fields, children) && KeywordsSettled(children, out)
    ensures var any := Get(fields, "anyOf");
            && (Choice(Get(out, "anyOf")) <==> Choice(any) && !ChoiceGoes(any))
            && (Choice(any) && !ChoiceGoes(any) ==> Get(out, "anyOf") == Rewrite(any))
  {
    var any := Get(fields, "anyOf");
    ChoiceGoesIff(any);
    PlainStays(any);
  }

  /** The rewritten schema may be null exactly when the schema as given says so beyond its choice that goes. */
  lemma NullableAfterIff(schema: Json)
    ensures Nullable(Rewrite(schema)) <==> NullableAfter(schema)
  {
    NullableIs(Rewrite(schema));
    if schema.Obj? {
      var fields := schema.fields;
      var children := Children(fields);
      var out := Settle(children);
      SettleIs(children);
      UntouchedSettle(children);
      WordsStay(fields, children, out);
      AlternativesStay(fields, children, out);
      ChoiceStays(fields, children, out);
      if Choice(Get(fields, "anyOf")) {
        HasNullStays(Get(fields, "anyOf"));
      }
    }
  }

  /** A schema that may be null as given, and says so no more once rewritten. */
  lemma NullIsLostIff(schema: Json)
    ensures Nullable(schema) && !Nullable(Rewrite(schema)) <==> NullByChoiceThatGoes(schema)
  {
    NullableIs(schema);
    NullableAfterIff(schema);
  }

  // ------------------------------------------------------------------ what stays required

  predicate Requires(node: Json, name: string) {
    node.Obj? && Get(node.fields, "required").Arr? && Str(name) in Get(node.fields, "required").items
  }

  /** The properties of a node are named schemas. */
  ghost predicate Named(fields: map<string, Json>) {
    Get(fields, "properties").Obj? && AllObjects(Get(fields, "properties").fields)
  }

  lemma TextIsItself(node: Json, text: string)
    ensures Rewrite(node) == Str(text) <==> node == Str(text)
  {
  }

  lemma NamesStay(required: Json, name: string)
    requires required.Arr?
    ensures Str(name) in Rewrite(required).items <==> Str(name) in required.items
  {
    forall i | 0 <= i < |required.items|
      ensures Rewrite(required).items[i] == Str(name) <==> required.items[i] == Str(name)
    {
      TextIsItself(required.items[i], name);
    }
    if Str(name) in required.items {
      var i :| 0 <= i < |required.items| && required.items[i] == Str(name);
      assert Rewrite(required).items[i] == Str(name);
    }
  }

  lemma PropertyAfter(properties: Json, name: string)
    requires properties.Obj? && AllObjects(properties.fields)
    ensures Nullable(Get(Rewrite(properties).fields, name)) <==>
              name in properties.fields && name != "default" && NullableAfter(properties.fields[name])
  {
    NamesKept(properties.fields);
    if name in properties.fields {
      NullableAfterIff(properties.fields[name]);
    }
  }

  /** A property that is required stays so exactly when its schema, rewritten, does not say that it may be null;
      one that is called `default`, or that there is not, stays so too. */
  lemma StaysRequiredIff(fields: map<string, Json>, name: string)
    requires Named(fields) && Requires(Obj(fields), name)
    ensures var properties := Get(fields, "properties").fields;
            Requires(Rewrite(Obj(fields)), name) <==>
              name == "default" || name !in properties || !NullableAfter(properties[name])
  {
    var properties, required := Get(fields, "properties"), Get(fields, "required");
    var children := Children(fields);
    assert Get(children, "properties") == Rewrite(properties) && Get(children, "required") == Rewrite(required);
    PropertyAfter(properties, name);
    NamesStay(required, name);
    KeptRequired(children, name);
  }

  lemma KeptRequired(children: map<string, Json>, name: string)
    requires Get(children, "properties").Obj? && Get(children, "required").Arr?
    requires Str(name) in Get(children, "required").items
    ensures Requires(Obj(Settle(children)), name) <==> !Nullable(Get(Get(children, "properties").fields, name))
  {
    var kept := NotNullable(Get(children, "properties").fields, Get(children, "required").items);
    assert Str(name) in kept <==> !Nullable(PropertyNamed(Get(children, "properties").fields, Str(name)));
    UntouchedSettle(children);
  }

  /** So of the required properties that may be null as given, those stay required that may be null as only a
      choice says that goes; and one that is called `default`. */
  lemma NullableStaysRequiredIff(fields: map<string, Json>, name: string)
    requires Named(fields) && Requires(Obj(fields), name)
    requires name in Get(fields, "properties").fields && Nullable(Get(fields, "properties").fields[name])
    ensures Requires(Rewrite(Obj(fields)), name) <==>
              name == "default" || NullByChoiceThatGoes(Get(fields, "properties").fields[name])
  {
    var schema := Get(fields, "properties").fields[name];
    StaysRequiredIff(fields, name);
    NullIsLostIff(schema);
    NullableAfterIff(schema);
  }

  /** A list of anything, or null. */
  const OPTIONAL_LIST := Arr([Obj(map["type" := Str("array"), "items" := Obj(map[])]), Obj(map["type" := Str("null")])])

  lemma ListGoes()
    ensures HasNull(OPTIONAL_LIST.items) && ChoiceGoes(OPTIONAL_LIST)
  {
    var list := OPTIONAL_LIST.items[0];
    assert NullOption(OPTIONAL_LIST.items[1]);
    assert list.fields.Keys == {"type", "items"} && BecomesUntyped(list.fields["items"]);
    assert BecomesUntyped(list);
  }

  lemma AnyByChoice(schema: Json, any: Json)
    requires schema == Obj(map["anyOf" := any]) && Choice(any) && HasNull(any.items) && ChoiceGoes(any)
    ensures NullByChoiceThatGoes(schema) && BecomesUntyped(schema)
  {
    assert schema.fields.Keys == {"anyOf"};
  }

  lemma OptionalListIsAny(schema: Json)
    requires schema == Obj(map["anyOf" := OPTIONAL_LIST])
    ensures Nullable(schema) && NullByChoiceThatGoes(schema) && Untyped(Rewrite(schema))
  {
    ListGoes();
    AnyByChoice(schema, OPTIONAL_LIST);
    NullIsLostIff(schema);
    BecomesUntypedIff(schema);
  }

  /** An optional list of anything: it may be null, becomes any value, and stays required. */
  lemma OptionalListStaysRequired(schema: Json, fields: map<string, Json>)
    requires schema == Obj(map["anyOf" := OPTIONAL_LIST])
    requires fields == map["properties" := Obj(map["p" := schema]), "required" := Arr([Str("p")])]
    ensures Nullable(schema) && Untyped(Rewrite(schema)) && Requires(Rewrite(Obj(fields)), "p")
  {
    OptionalListIsAny(schema);
    assert Get(fields, "required").items[0] == Str("p");
    NullableStaysRequiredIff(fields, "p");
  }
}
