/** The values records and releases hold, and when two of them count as the same. */
module CatalogueValues {

  import opened Texts

  /** How Python prints a number or a truth value: never blank, never padded. */
  type Shown = s: string | s != "" && Strip(s) == s witness "0"

  datatype Value =
    | Null
    | Text(text: string)
    | Scalar(shown: Shown)
    | List(items: seq<Value>)
    | Table(fields: map<string, Value>)

  predicate Blank(v: Value) {
    v.Null? || (v.Text? && Strip(v.text) == "") || v == List([])
  }

  predicate Simple(v: Value) {
    v.Text? || v.Scalar?
  }

  function Printed(v: Value): string
    requires Simple(v)
  {
    if v.Text? then v.text else v.shown
  }

  predicate Same(a: Value, b: Value) {
    if Blank(a) && Blank(b) then true
    else if Simple(a) && Simple(b) then Strip(Printed(a)) == Strip(Printed(b))
    else a == b
  }

  /** What a release can state: never a blank value. */
  type Said = v: Value | !Blank(v) witness Scalar("0")

  /** The one value that stands for all the values it is the same as. */
  function Canon(v: Value): Value {
    if Blank(v) then Null
    else if Simple(v) then Text(Strip(Printed(v)))
    else v
  }

  lemma SameIsCanon(a: Value, b: Value)
    ensures Same(a, b) <==> Canon(a) == Canon(b)
  {
    if Simple(a) && !Blank(a) {
      assert Strip(Printed(a)) != "";
    }
    if Simple(b) && !Blank(b) {
      assert Strip(Printed(b)) != "";
    }
  }

  /** Blank is what has nothing to say: nothing at all, a text of white space, or a list of nothing. */
  lemma BlankIs(v: Value)
    ensures Blank(v) <==> v == Null || (v.Text? && Spaces(v.text)) || v == List([])
  {
    if v.Text? {
      NothingLeftIff(v.text);
    }
  }

  /** A text is the same as itself with white space about it, and as a number or a truth value printed so. */
  lemma PaddedIsSame(a: string, s: Shown, b: string)
    requires Spaces(a) && Spaces(b)
    ensures Same(Text(a + s + b), Text(s)) && Same(Text(a + s + b), Scalar(s))
  {
    var x, y := StripIs(s);
    assert |Strip(s)| == |s|;
    PaddedStrips(a, s, b);
  }

  /** Counting as the same is an equivalence, and no stated value is the same as a blank one. */
  lemma SameIsAnEquivalence(a: Value, b: Value, c: Value)
    ensures Same(a, a)
    ensures Same(a, b) ==> Same(b, a)
    ensures Same(a, b) && Same(b, c) ==> Same(a, c)
    ensures Same(a, b) ==> (Blank(a) <==> Blank(b))
  {
    SameIsCanon(a, a);
    SameIsCanon(a, b);
    SameIsCanon(b, a);
    SameIsCanon(b, c);
    SameIsCanon(a, c);
  }
}
