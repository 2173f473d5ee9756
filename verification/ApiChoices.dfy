/**
 A choice of several primitive types, which no generator can type: when the rewriting drops one, and when it
 leaves one. What becomes of a schema is told from the schema as given.
 */
module ApiChoices {
  import opened ApiContract

  // ------------------------------------------------------------------ told from the schema as given

  /** A schema that the rewriting leaves without a type: it has none, or is a list of such a schema; and it has
      no choice, or one that goes. */
  ghost predicate BecomesUntyped(schema: Json)
    decreases schema, 0
  {
    schema.Obj? && schema.fields.Keys !! {"$ref", "oneOf", "allOf", "enum"}
    && ("type" in schema.fields ==> schema.fields["type"] == Str("array")
                                    && "items" in schema.fields && BecomesUntyped(schema.fields["items"]))
    && ("anyOf" in schema.fields ==> ChoiceGoes(schema.fields["anyOf"]))
  }

  /** A choice that the rewriting drops: of primitive types, or with an option that becomes untyped. */
  ghost predicate ChoiceGoes(any: Json)
    decreases any, 1
  {
    PrimitiveUnion(any) || (any.Arr? && exists i :: 0 <= i < |any.items| && BecomesUntyped(any.items[i]))
  }

  /** An option that the rewriting leaves as nothing but a primitive type. */
  ghost predicate BecomesPrimitive(option: Json) {
    option.Obj? && option.fields.Keys <= {"type", "default", "anyOf"}
    && Get(option.fields, "type").Str? && Get(option.fields, "type").text in PRIMITIVES
    && ("default" in option.fields ==> option.fields["default"].Obj?)
    && ("anyOf" in option.fields ==> ChoiceGoes(option.fields["anyOf"]))
  }

  /** A choice that the rewriting turns into one of several primitive types, and leaves: every option becomes
      primitive, two of them differ, and not all were bare. */
  ghost predicate LeftAsPrimitives(any: Json) {
    && any.Arr? && |any.items| > 1
    && (forall i :: 0 <= i < |any.items| ==> BecomesPrimitive(any.items[i]))
    && (exists i, j :: 0 <= i < j < |any.items| && any.items[i].fields["type"] != any.items[j].fields["type"])
    && (exists i :: 0 <= i < |any.items| && any.items[i].fields.Keys != {"type"})
  }

  // ------------------------------------------------------------------ the keys of a rewritten node

  const NAMING := {"$ref", "oneOf", "allOf", "enum"}

  /** What stays of a node, by whether its items become untyped and its choice goes. */
  ghost predicate Kept(fields: map<string, Json>, out: map<string, Json>, itemsGo: bool, choiceGoes: bool) {
    KeywordsKept(fields, out, itemsGo, choiceGoes) && OthersKept(fields, out)
  }

  ghost predicate KeywordsKept(fields: map<string, Json>, out: map<string, Json>, itemsGo: bool, choiceGoes: bool) {
    && ("type" in out <==> "type" in fields && !(fields["type"] == Str("array") && itemsGo))
    && ("type" in out ==> out["type"] == Rewrite(fields["type"]))
    && ("anyOf" in out <==> "anyOf" in fields && !choiceGoes)
    && ("default" in out <==> "default" in fields && !fields["default"].Obj? && "enum" !in fields)
  }

  ghost predicate OthersKept(fields: map<string, Json>, out: map<string, Json>) {
    && out.Keys <= fields.Keys
    && (forall k :: k in fields && k !in {"type", "anyOf", "default"} ==>
          k in out || (k == "items" && "type" !in out) || (k == "required" && "properties" in out))
  }

  /** Settling, step by step: each step keeps the keys it is not about. */
  ghost predicate OthersAlike(a: map<string, Json>, b: map<string, Json>, keys: set<string>) {
    forall k :: k !in keys ==> (k in b <==> k in a) && Get(b, k) == Get(a, k)
  }

  ghost predicate RequiredDone(a: map<string, Json>, b: map<string, Json>) {
    OthersAlike(a, b, {"required"}) && ("required" in b ==> "required" in a)
    && ("required" in a && "required" !in b ==> "properties" in b)
  }

  ghost predicate DefaultDone(a: map<string, Json>, b: map<string, Json>) {
    OthersAlike(a, b, {"default"})
    && ("default" in b <==> "default" in a && !Get(a, "default").Obj? && "enum" !in a)
  }

  ghost predicate ArrayDone(a: map<string, Json>, b: map<string, Json>) {
    if Get(a, "type") == Str("array") && Untyped(Get(a, "items"))
    then OthersAlike(a, b, {"type", "items"}) && "type" !in b && "items" !in b
    else b == a
  }

  ghost predicate UnionDone(a: map<string, Json>, b: map<string, Json>) {
    OthersAlike(a, b, {"anyOf"}) && ("anyOf" in b <==> "anyOf" in a && !UntypedOption(Get(a, "anyOf")))
    && ("anyOf" in b ==> b["anyOf"] == a["anyOf"])
  }

  lemma RequiredStep(fields: map<string, Json>)
    ensures RequiredDone(fields, DropNullableRequired(fields))
  {
  }

  lemma DefaultStep(fields: map<string, Json>)
    ensures DefaultDone(fields, DropDefault(fields))
  {
  }

  lemma ArrayStep(fields: map<string, Json>)
    ensures ArrayDone(fields, DropUntypedArray(fields))
  {
  }

  lemma UnionStep(fields: map<string, Json>)
    ensures UnionDone(fields, DropUntypedUnion(fields))
  {
  }

  /** The keys that tell a type, and the one default. */
  ghost predicate KeywordsSettled(children: map<string, Json>, out: map<string, Json>) {
    && ("type" in out <==>
          "type" in children && !(Get(children, "type") == Str("array") && Untyped(Get(children, "items"))))
    && ("type" in out ==> Get(out, "type") == Get(children, "type"))
    && ("anyOf" in out <==> "anyOf" in children && !UntypedOption(Get(children, "anyOf")))
    && ("anyOf" in out ==> Get(out, "anyOf") == Get(children, "anyOf"))
    && ("default" in out <==> "default" in children && !Get(children, "default").Obj? && "enum" !in children)
  }

  ghost predicate OthersSettled(children: map<string, Json>, out: map<string, Json>) {
    && out.Keys <= children.Keys
    && (forall k :: k in children && k !in {"type", "anyOf", "default"} ==>
          k in out || (k == "items" && "type" !in out) || (k == "required" && "properties" in out))
  }

  lemma KeywordsSettle(children: map<string, Json>, a: map<string, Json>, b: map<string, Json>, c: map<string, Json>,
                       out: map<string, Json>)
    requires RequiredDone(children, a) && DefaultDone(a, b) && ArrayDone(b, c) && UnionDone(c, out)
    ensures KeywordsSettled(children, out)
  {
    assert Get(b, "type") == Get(a, "type") == Get(children, "type");
    assert Get(b, "items") == Get(a, "items") == Get(children, "items");
    assert Get(c, "anyOf") == Get(b, "anyOf") == Get(a, "anyOf") == Get(children, "anyOf");
    assert Get(a, "default") == Get(children, "default") && ("enum" in a <==> "enum" in children);
  }

  lemma OthersSettle(children: map<string, Json>, a: map<string, Json>, b: map<string, Json>, c: map<string, Json>,
                     out: map<string, Json>)
    requires RequiredDone(children, a) && DefaultDone(a, b) && ArrayDone(b, c) && UnionDone(c, out)
    ensures OthersSettled(children, out)
  {
    forall k | k in out ensures k in children {
      assert k in c && k in b && k in a;
    }
    forall k | k in children && k !in {"type", "anyOf", "default"}
      ensures k in out || (k == "items" && "type" !in out) || (k == "required" && "properties" in out)
    {
      if k != "required" {
        assert k in a && k in b;
      }
    }
  }

  lemma SettleIs(children: map<string, Json>)
    ensures KeywordsSettled(children, Settle(children)) && OthersSettled(children, Settle(children))
  {
    var a := DropNullableRequired(children);
    var b := DropDefault(a);
    var c := DropUntypedArray(b);
    RequiredStep(children);
    DefaultStep(a);
    ArrayStep(b);
    UnionStep(c);
    KeywordsSettle(children, a, b, c, DropUntypedUnion(c));
    OthersSettle(children, a, b, c, DropUntypedUnion(c));
  }

  lemma KeywordsStay(fields: map<string, Json>, children: map<string, Json>, out: map<string, Json>)
    requires Each(fields, children) && KeywordsSettled(children, out)
    ensures KeywordsKept(fields, out, "items" in fields && Untyped(Rewrite(fields["items"])),
                         "anyOf" in fields
                         && (PrimitiveUnion(fields["anyOf"]) || UntypedOption(Rewrite(fields["anyOf"]))))
  {
    ObjectStays(fields, "default");
    TextStays(fields);
  }

  lemma OthersStay(fields: map<string, Json>, children: map<string, Json>, out: map<string, Json>)
    requires Each(fields, children) && OthersSettled(children, out)
    ensures OthersKept(fields, out)
  {
    forall k | k in fields && k !in {"type", "anyOf", "default"} ensures k in children {
    }
  }

  lemma ObjectStays(fields: map<string, Json>, k: string)
    ensures k in fields ==> (Rewrite(fields[k]).Obj? <==> fields[k].Obj?)
  {
  }

  lemma TextStays(fields: map<string, Json>)
    ensures "type" in fields ==> (Rewrite(fields["type"]) == Str("array") <==> fields["type"] == Str("array"))
  {
  }

  // ------------------------------------------------------------------ what becomes of a schema

  lemma UntypedIff(fields: map<string, Json>, out: map<string, Json>, itemsGo: bool, choiceGoes: bool)
    requires Kept(fields, out, itemsGo, choiceGoes)
    ensures Untyped(Obj(out)) <==>
              && fields.Keys !! NAMING && ("type" in fields ==> fields["type"] == Str("array") && itemsGo)
              && ("anyOf" in fields ==> choiceGoes)
  {
    if Untyped(Obj(out)) {
      forall k | k in NAMING ensures k !in fields {
        assert k !in out.Keys;
      }
    } else {
      var k :| k in out.Keys && k in {"type", "$ref", "anyOf", "oneOf", "allOf", "enum"};
      assert k in NAMING || k == "type" || k == "anyOf";
    }
  }

  lemma PrimitiveIff(fields: map<string, Json>, out: map<string, Json>, itemsGo: bool, choiceGoes: bool)
    requires Kept(fields, out, itemsGo, choiceGoes)
    ensures PrimitiveOption(Obj(out)) <==>
              && fields.Keys <= {"type", "default", "anyOf"}
              && Get(fields, "type").Str? && Get(fields, "type").text in PRIMITIVES
              && ("default" in fields ==> fields["default"].Obj?) && ("anyOf" in fields ==> choiceGoes)
    ensures PrimitiveOption(Obj(out)) ==> out == map["type" := fields["type"]]
  {
    if PrimitiveOption(Obj(out)) {
      assert "type" in out.Keys;
      forall k | k in fields ensures k in {"type", "default", "anyOf"} {
        if k in NAMING {
          assert k in out.Keys;
        }
      }
    }
  }

  lemma {:induction false} BecomesUntypedIff(schema: Json)
    ensures BecomesUntyped(schema) <==> Untyped(Rewrite(schema))
    decreases schema, 0
  {
    if schema.Obj? {
      var fields := schema.fields;
      if "items" in fields {
        BecomesUntypedIff(fields["items"]);
      }
      if "anyOf" in fields {
        ChoiceGoesIff(fields["anyOf"]);
      }
      var out := Outcome(fields);
      UntypedIff(fields, out, "items" in fields && Untyped(Rewrite(fields["items"])),
                 "anyOf" in fields && (PrimitiveUnion(fields["anyOf"]) || UntypedOption(Rewrite(fields["anyOf"]))));
    }
  }

  lemma Outcome(fields: map<string, Json>) returns (out: map<string, Json>)
    ensures Rewrite(Obj(fields)) == Obj(out)
    ensures Kept(fields, out, "items" in fields && Untyped(Rewrite(fields["items"])),
                 "anyOf" in fields && (PrimitiveUnion(fields["anyOf"]) || UntypedOption(Rewrite(fields["anyOf"]))))
  {
    var children := Children(fields);
    out := Settle(children);
    SettleIs(children);
    KeywordsStay(fields, children, out);
    OthersStay(fields, children, out);
  }

  lemma {:induction false} ChoiceGoesIff(any: Json)
    ensures ChoiceGoes(any) <==> PrimitiveUnion(any) || UntypedOption(Rewrite(any))
    decreases any, 1
  {
    if any.Arr? {
      forall i | 0 <= i < |any.items| ensures BecomesUntyped(any.items[i]) <==> Untyped(Rewrite(any).items[i]) {
        BecomesUntypedIff(any.items[i]);
      }
    }
  }

  lemma BecomesPrimitiveIff(option: Json)
    ensures BecomesPrimitive(option) <==> PrimitiveOption(Rewrite(option))
    ensures BecomesPrimitive(option) ==> Rewrite(option) == Obj(map["type" := option.fields["type"]])
  {
    if option.Obj? {
      var fields := option.fields;
      if "anyOf" in fields {
        ChoiceGoesIff(fields["anyOf"]);
      }
      var out := Outcome(fields);
      PrimitiveIff(fields, out, "items" in fields && Untyped(Rewrite(fields["items"])),
                   "anyOf" in fields && (PrimitiveUnion(fields["anyOf"]) || UntypedOption(Rewrite(fields["anyOf"]))));
    }
  }

  // ------------------------------------------------------------------ what becomes of a choice

  /** A choice of primitive types is left exactly when its options, as given, become bare primitive types, of
      which two differ and not all were bare: the check for it comes before its options are rewritten. */
  lemma PrimitiveUnionLeft(fields: map<string, Json>)
    ensures PrimitiveUnion(Get(Rewrite(Obj(fields)).fields, "anyOf")) <==> LeftAsPrimitives(Get(fields, "anyOf"))
  {
    ChoiceLeft(fields);
    AllPrimitiveIff(Get(fields, "anyOf"));
  }

  lemma AllPrimitiveIff(any: Json)
    ensures LeftAsPrimitives(any) <==> !PrimitiveUnion(any) && PrimitiveUnion(Rewrite(any))
  {
    if any.Arr? {
      var out := Rewrite(any).items;
      forall i | 0 <= i < |any.items|
        ensures BecomesPrimitive(any.items[i]) <==> PrimitiveOption(out[i])
        ensures BecomesPrimitive(any.items[i]) ==> out[i] == Obj(map["type" := any.items[i].fields["type"]])
      {
        BecomesPrimitiveIff(any.items[i]);
      }
      if forall i :: 0 <= i < |any.items| ==> BecomesPrimitive(any.items[i]) {
        PrimitivesDiffer(any.items, out);
      }
    }
  }

  /** Of options that become primitive, two differ afterwards when their types do; and they are of several
      primitive types already when moreover all are bare. */
  lemma PrimitivesDiffer(items: seq<Json>, out: seq<Json>)
    requires |out| == |items|
    requires forall i :: 0 <= i < |items| ==>
               BecomesPrimitive(items[i]) && out[i] == Obj(map["type" := items[i].fields["type"]])
    ensures LeftAsPrimitives(Arr(items)) <==> PrimitiveUnion(Arr(out)) && !PrimitiveUnion(Arr(items))
  {
    forall i, j | 0 <= i < j < |items|
      ensures out[i] != out[j] <==> items[i].fields["type"] != items[j].fields["type"]
    {
      assert out[i].fields["type"] == items[i].fields["type"] && out[j].fields["type"] == items[j].fields["type"];
    }
    forall i | 0 <= i < |items|
      ensures PrimitiveOption(out[i]) && (PrimitiveOption(items[i]) <==> items[i].fields.Keys == {"type"})
    {
    }
    if forall i :: 0 <= i < |items| ==> items[i].fields.Keys == {"type"} {
      forall i | 0 <= i < |items| ensures items[i] == out[i] {
        assert items[i].fields == out[i].fields;
      }
      assert items == out;
    }
  }

  lemma ChoiceLeft(fields: map<string, Json>)
    ensures PrimitiveUnion(Get(Rewrite(Obj(fields)).fields, "anyOf")) <==>
              !PrimitiveUnion(Get(fields, "anyOf")) && PrimitiveUnion(Rewrite(Get(fields, "anyOf")))
  {
    var children := Children(fields);
    SettleIs(children);
    if PrimitiveUnion(Get(children, "anyOf")) {
      PrimitiveIsTyped(Get(children, "anyOf"));
    }
  }

  lemma PrimitiveIsTyped(any: Json)
    requires PrimitiveUnion(any)
    ensures !UntypedOption(any)
  {
    forall i | 0 <= i < |any.items| ensures !Untyped(any.items[i]) {
      assert PrimitiveOption(any.items[i]) && "type" in any.items[i].fields.Keys;
    }
  }

  /** There is such a choice: a string with an object default, or an integer. */
  lemma PrimitiveUnionCanBeLeft()
    ensures var text := Obj(map["type" := Str("string"), "default" := Obj(map[])]);
            var choice := Arr([text, Obj(map["type" := Str("integer")])]);
            PrimitiveUnion(Get(Rewrite(Obj(map["anyOf" := choice])).fields, "anyOf"))
  {
    var text, number := Obj(map["type" := Str("string"), "default" := Obj(map[])]), Obj(map["type" := Str("integer")]);
    var items := [text, number];
    assert items[0].fields["type"] != items[1].fields["type"];
    assert "default" in items[0].fields.Keys;
    assert LeftAsPrimitives(Arr(items));
    PrimitiveUnionLeft(map["anyOf" := Arr(items)]);
  }
}
