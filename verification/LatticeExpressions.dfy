/**
 Variables defined by expressions that name one another: each is worked out when something asks for it.

 Expressions are syntax trees. The arithmetic itself is a parameter: `apply` gives the value of an operator
 or function on its arguments, or nothing where the program raises, so what is proved holds of any
 arithmetic.
 */
module LatticeExpressions {
  import opened Graphs
  import opened Wrappers

  datatype Expr = Number(value: real) | Name(name: string) | Apply(op: string, args: seq<Expr>) | Unsupported

  /** The text a variable is defined as: blank, not an expression, or one. */
  datatype Definition = Blank | Unreadable | Reads(expr: Expr)

  datatype Problem = Circular(name: string) | BadExpression | BadArithmetic

  type Value = Result<real, Problem>

  type Arithmetic = (string, seq<real>) -> Option<real>

  datatype Setting = Setting(apply: Arithmetic, constants: map<string, real>)

  type Definitions = map<string, Definition>

  function Lower(s: string): string {
    seq(|s|, i requires 0 <= i < |s| => if 'A' <= s[i] <= 'Z' then (s[i] as int + 32) as char else s[i])
  }

  /** A name that is not defined: a constant, or zero. */
  function Undefined(setting: Setting, name: string): real {
    if name in setting.constants then setting.constants[name] else 0.0
  }

  /** Capitals become small letters, and nothing else changes. */
  lemma LowerIs(s: string, i: nat)
    requires i < |s|
    ensures |Lower(s)| == |s| && ('A' <= Lower(s)[i] <= 'Z' ==> false)
    ensures 'A' <= s[i] <= 'Z' ==> 'a' <= Lower(s)[i] <= 'z' && Lower(s)[i] - 'a' == s[i] - 'A'
    ensures !('A' <= s[i] <= 'Z') ==> Lower(s)[i] == s[i]
  {
  }

  // ------------------------------------------------------------------ evaluation, with the names being evaluated

  function Variable(setting: Setting, defs: Definitions, busy: set<string>, name: string): Value
    decreases defs.Keys - busy, 1
  {
    if name !in defs then Ok(Undefined(setting, name))
    else if name in busy then Err(Circular(name))
    else match defs[name]
      case Blank => Ok(0.0)
      case Unreadable => Err(BadExpression)
      case Reads(expr) => Eval(setting, defs, busy + {name}, expr)
  }

  function Eval(setting: Setting, defs: Definitions, busy: set<string>, e: Expr): Value
    decreases defs.Keys - busy, 2, e
  {
    match e
    case Number(value) => Ok(value)
    case Name(name) => Variable(setting, defs, busy, Lower(name))
    case Apply(op, args) => (
      match EvalAll(setting, defs, busy, args)
      case Err(problem) => Err(problem)
      case Ok(values) => Applied(setting, op, values))
    case Unsupported => Err(BadExpression)
  }

  function EvalAll(setting: Setting, defs: Definitions, busy: set<string>, args: seq<Expr>): Result<seq<real>, Problem>
    decreases defs.Keys - busy, 2, args
  {
    if args == [] then Ok([])
    else match Eval(setting, defs, busy, args[0])
      case Err(problem) => Err(problem)
      case Ok(value) =>
        match EvalAll(setting, defs, busy, args[1..])
        case Err(problem) => Err(problem)
        case Ok(values) => Ok([value] + values)
  }

  function Applied(setting: Setting, op: string, values: seq<real>): Value {
    match setting.apply(op, values)
    case None => Err(BadArithmetic)
    case Some(value) => Ok(value)
  }

  /** In whatever case it is written, a name that is not defined is a constant, or zero; one that is defined hides the
      constant, and is zero when its text is blank. */
  lemma NameIs(setting: Setting, defs: Definitions, name: string)
    ensures var value, r := Eval(setting, defs, {}, Name(name)), Lower(name);
            && (r !in defs && r in setting.constants ==> value == Ok(setting.constants[r]))
            && (r !in defs && r !in setting.constants ==> value == Ok(0.0))
            && (r in defs && defs[r] == Blank ==> value == Ok(0.0))
            && (r in defs && defs[r] == Unreadable ==> value == Err(BadExpression))
  {
  }

  /** The evaluator as the converters use it: the definitions, and the names being evaluated just now. */
  class Evaluator {
    const setting: Setting
    var exprs: Definitions
    var busy: set<string>

    constructor (setting: Setting)
      ensures exprs == map[] && busy == {} && this.setting == setting
    {
      this.setting := setting;
      exprs, busy := map[], {};
    }

    method Define(name: string, definition: Definition)
      modifies this`exprs
      ensures exprs == old(exprs)[Lower(name) := definition]
    {
      exprs := exprs[Lower(name) := definition];
    }

    /** Whatever comes of it, a value or a failure, `busy` is left as it was. */
    method Var(name: string) returns (value: Value)
      modifies this`busy
      ensures busy == old(busy)
      ensures value == Variable(setting, exprs, busy, Lower(name))
      decreases exprs.Keys - busy, 1
    {
      var lower := Lower(name);
      if lower !in exprs {
        return Ok(Undefined(setting, lower));
      }
      if lower in busy {
        return Err(Circular(lower));
      }
      busy := busy + {lower};
      match exprs[lower] {
        case Blank => value := Ok(0.0);
        case Unreadable => value := Err(BadExpression);
        case Reads(expr) => value := Evaluate(expr);
      }
      busy := busy - {lower};
      assert busy == old(busy);
    }

    method Evaluate(e: Expr) returns (value: Value)
      modifies this`busy
      ensures busy == old(busy)
      ensures value == Eval(setting, exprs, busy, e)
      decreases exprs.Keys - busy, 2, e
    {
      match e {
        case Number(v) => value := Ok(v);
        case Name(name) => value := Var(name);
        case Apply(op, args) =>
          var values := EvaluateAll(args);
          if values.Err? {
            return Err(values.error);
          }
          value := Applied(setting, op, values.value);
        case Unsupported => value := Err(BadExpression);
      }
    }

    method EvaluateAll(args: seq<Expr>) returns (values: Result<seq<real>, Problem>)
      modifies this`busy
      ensures busy == old(busy)
      ensures values == EvalAll(setting, exprs, busy, args)
      decreases exprs.Keys - busy, 2, args
    {
      if args == [] {
        return Ok([]);
      }
      var first := Evaluate(args[0]);
      if first.Err? {
        return Err(first.error);
      }
      var rest := EvaluateAll(args[1..]);
      if rest.Err? {
        return Err(rest.error);
      }
      return Ok([first.value] + rest.value);
    }
  }

  // ------------------------------------------------------------------ what refers to what

  function Refs(e: Expr): seq<string> {
    match e
    case Name(name) => [Lower(name)]
    case Apply(_, args) => AllRefs(args)
    case _ => []
  }

  function AllRefs(args: seq<Expr>): seq<string> {
    if args == [] then [] else Refs(args[0]) + AllRefs(args[1..])
  }

  function DefinitionRefs(d: Definition): seq<string> {
    if d.Reads? then Refs(d.expr) else []
  }

  /** Each defined name leads to the names its definition uses. */
  function Uses(defs: Definitions): map<string, seq<string>> {
    map name | name in defs :: DefinitionRefs(defs[name])
  }

  /** From one of the names one comes to `name`. */
  ghost predicate Leads(defs: Definitions, names: seq<string>, name: string) {
    exists r :: r in names && Reaches(Uses(defs), r, name)
  }

  lemma LeadsOn(defs: Definitions, names: seq<string>, more: seq<string>, name: string)
    requires Leads(defs, names, name) && forall r :: r in names ==> r in more
    ensures Leads(defs, more, name)
  {
  }

  lemma LeadsThrough(defs: Definitions, r: string, name: string)
    requires r in defs && Leads(defs, DefinitionRefs(defs[r]), name)
    ensures Reaches(Uses(defs), r, name)
    ensures name == r ==> OnCycle(Uses(defs), r)
  {
    var g := Uses(defs);
    var c :| c in DefinitionRefs(defs[r]) && Reaches(g, c, name);
    var n: nat :| Steps(g, c, name, n);
    assert c in Out(g, r);
    OneStep(g, r, c);
    StepsAdd(g, r, c, name, 1, n);
  }

  lemma ReachesSelf(defs: Definitions, r: string)
    ensures Reaches(Uses(defs), r, r)
  {
    assert Steps(Uses(defs), r, r, 0);
  }

  // ------------------------------------------------------------------ inlining

  /** The expression with every defined name replaced by its definition, through at most `k` definitions one
      inside another; nothing when that is not enough. */
  function Inline(setting: Setting, defs: Definitions, e: Expr, k: nat): Option<Expr>
    decreases k, 2, e
  {
    match e
    case Name(name) => InlineName(setting, defs, Lower(name), k)
    case Apply(op, args) => (
      match InlineAll(setting, defs, args, k)
      case None => None
      case Some(all) => Some(Apply(op, all)))
    case _ => Some(e)
  }

  function InlineAll(setting: Setting, defs: Definitions, args: seq<Expr>, k: nat): Option<seq<Expr>>
    decreases k, 2, args
  {
    if args == [] then Some([])
    else match (Inline(setting, defs, args[0], k), InlineAll(setting, defs, args[1..], k))
      case (Some(first), Some(rest)) => Some([first] + rest)
      case _ => None
  }

  function InlineName(setting: Setting, defs: Definitions, name: string, k: nat): Option<Expr>
    decreases k, 1
  {
    if name !in defs then Some(Number(Undefined(setting, name)))
    else if k == 0 then None
    else match defs[name]
      case Blank => Some(Number(0.0))
      case Unreadable => Some(Unsupported)
      case Reads(expr) => Inline(setting, defs, expr, k - 1)
  }

  /** The value of an expression without names. */
  function Plain(setting: Setting, e: Expr): Value {
    match e
    case Number(value) => Ok(value)
    case Name(_) => Err(BadExpression)
    case Apply(op, args) => (
      match PlainAll(setting, args)
      case Err(problem) => Err(problem)
      case Ok(values) => Applied(setting, op, values))
    case Unsupported => Err(BadExpression)
  }

  function PlainAll(setting: Setting, args: seq<Expr>): Result<seq<real>, Problem> {
    if args == [] then Ok([])
    else match Plain(setting, args[0])
      case Err(problem) => Err(problem)
      case Ok(value) =>
        match PlainAll(setting, args[1..])
        case Err(problem) => Err(problem)
        case Ok(values) => Ok([value] + values)
  }

  // ------------------------------------------------------------------ without circles, evaluation is inlining

  /** Nothing these names lead to is being evaluated, or is defined in terms of itself. */
  ghost predicate Clear(defs: Definitions, busy: set<string>, names: seq<string>) {
    forall x {:trigger Leads(defs, names, x)} ::
      Leads(defs, names, x) ==> x !in busy && !OnCycle(Uses(defs), x)
  }

  lemma ClearPart(defs: Definitions, busy: set<string>, names: seq<string>, part: seq<string>)
    requires Clear(defs, busy, names) && forall r :: r in part ==> r in names
    ensures Clear(defs, busy, part)
  {
    forall x | Leads(defs, part, x) ensures x !in busy && !OnCycle(Uses(defs), x) {
      LeadsOn(defs, part, names, x);
    }
  }

  /** Into a definition: its own name is now busy too, and it does not lead back to it. */
  lemma ClearInto(defs: Definitions, busy: set<string>, r: string)
    requires Clear(defs, busy, [r]) && r in defs
    ensures r !in busy && Clear(defs, busy + {r}, DefinitionRefs(defs[r]))
  {
    ReachesSelf(defs, r);
    assert r in [r] && Leads(defs, [r], r);
    forall x | Leads(defs, DefinitionRefs(defs[r]), x) ensures x !in busy + {r} && !OnCycle(Uses(defs), x) {
      LeadsThrough(defs, r, x);
      assert Leads(defs, [r], x);
    }
  }

  lemma {:induction false} NameIsInlined(setting: Setting, defs: Definitions, busy: set<string>, r: string)
    requires Clear(defs, busy, [r]) && busy <= defs.Keys
    ensures var inlined := InlineName(setting, defs, r, |defs.Keys - busy|);
            inlined.Some? && Variable(setting, defs, busy, r) == Plain(setting, inlined.value)
    decreases defs.Keys - busy, 1
  {
    if r in defs {
      ClearInto(defs, busy, r);
      assert defs.Keys - (busy + {r}) == (defs.Keys - busy) - {r};
      if defs[r].Reads? {
        EvalIsInlined(setting, defs, busy + {r}, defs[r].expr);
      }
    }
  }

  lemma {:induction false} EvalIsInlined(setting: Setting, defs: Definitions, busy: set<string>, e: Expr)
    requires Clear(defs, busy, Refs(e)) && busy <= defs.Keys
    ensures var inlined := Inline(setting, defs, e, |defs.Keys - busy|);
            inlined.Some? && Eval(setting, defs, busy, e) == Plain(setting, inlined.value)
    decreases defs.Keys - busy, 2, e
  {
    match e
    case Name(name) => NameIsInlined(setting, defs, busy, Lower(name));
    case Apply(op, args) => AllAreInlined(setting, defs, busy, args);
    case _ =>
  }

  lemma {:induction false} AllAreInlined(setting: Setting, defs: Definitions, busy: set<string>, args: seq<Expr>)
    requires Clear(defs, busy, AllRefs(args)) && busy <= defs.Keys
    ensures var inlined := InlineAll(setting, defs, args, |defs.Keys - busy|);
            inlined.Some? && EvalAll(setting, defs, busy, args) == PlainAll(setting, inlined.value)
    decreases defs.Keys - busy, 2, args
  {
    if args != [] {
      ClearPart(defs, busy, AllRefs(args), Refs(args[0]));
      ClearPart(defs, busy, AllRefs(args), AllRefs(args[1..]));
      EvalIsInlined(setting, defs, busy, args[0]);
      AllAreInlined(setting, defs, busy, args[1..]);
    }
  }

  // ------------------------------------------------------------------ a value means there was no circle

  lemma {:induction false} ValueMeansClear(setting: Setting, defs: Definitions, busy: set<string>, e: Expr)
    requires Eval(setting, defs, busy, e).Ok? && busy <= defs.Keys
    ensures Clear(defs, busy, Refs(e))
    decreases defs.Keys - busy, 2, e
  {
    match e
    case Name(name) => NameMeansClear(setting, defs, busy, Lower(name));
    case Apply(op, args) => AllMeanClear(setting, defs, busy, args);
    case _ =>
  }

  lemma {:induction false} AllMeanClear(setting: Setting, defs: Definitions, busy: set<string>, args: seq<Expr>)
    requires EvalAll(setting, defs, busy, args).Ok? && busy <= defs.Keys
    ensures Clear(defs, busy, AllRefs(args))
    decreases defs.Keys - busy, 2, args
  {
    if args != [] {
      ValueMeansClear(setting, defs, busy, args[0]);
      AllMeanClear(setting, defs, busy, args[1..]);
      forall x | Leads(defs, AllRefs(args), x) ensures x !in busy && !OnCycle(Uses(defs), x) {
        assert Leads(defs, Refs(args[0]), x) || Leads(defs, AllRefs(args[1..]), x);
      }
    }
  }

  lemma {:induction false} NameMeansClear(setting: Setting, defs: Definitions, busy: set<string>, r: string)
    requires Variable(setting, defs, busy, r).Ok? && busy <= defs.Keys
    ensures Clear(defs, busy, [r])
    decreases defs.Keys - busy, 1
  {
    if r in defs && defs[r].Reads? {
      ValueMeansClear(setting, defs, busy + {r}, defs[r].expr);
    }
    forall x | Leads(defs, [r], x) ensures x !in busy && !OnCycle(Uses(defs), x) {
      var n: nat :| Steps(Uses(defs), r, x, n);
      if n > 0 {
        FirstUse(defs, r, x, n);
      }
      if OnCycle(Uses(defs), r) {
        var m: nat :| m > 0 && Steps(Uses(defs), r, r, m);
        FirstUse(defs, r, r, m);
      }
    }
  }

  /** A walk of a step or more goes through the definition. */
  lemma FirstUse(defs: Definitions, r: string, x: string, n: nat)
    requires n > 0 && Steps(Uses(defs), r, x, n)
    ensures r in defs && Leads(defs, DefinitionRefs(defs[r]), x)
  {
    var c :| c in Out(Uses(defs), r) && Steps(Uses(defs), c, x, n - 1);
  }

  // ------------------------------------------------------------------ a reported circle is one

  lemma {:induction false} ReportedIsCircular(setting: Setting, defs: Definitions, busy: set<string>, e: Expr,
                                              x: string)
    requires Eval(setting, defs, busy, e) == Err(Circular(x))
    ensures Leads(defs, Refs(e), x) && (x in busy || OnCycle(Uses(defs), x))
    decreases defs.Keys - busy, 2, e
  {
    match e
    case Name(name) =>
      NameReported(setting, defs, busy, Lower(name), x);
      assert Lower(name) in Refs(e);
    case Apply(op, args) => AllReported(setting, defs, busy, args, x);
  }

  lemma {:induction false} AllReported(setting: Setting, defs: Definitions, busy: set<string>, args: seq<Expr>,
                                       x: string)
    requires EvalAll(setting, defs, busy, args) == Err(Circular(x))
    ensures Leads(defs, AllRefs(args), x) && (x in busy || OnCycle(Uses(defs), x))
    decreases defs.Keys - busy, 2, args
  {
    if Eval(setting, defs, busy, args[0]).Err? {
      ReportedIsCircular(setting, defs, busy, args[0], x);
      LeadsOn(defs, Refs(args[0]), AllRefs(args), x);
    } else {
      AllReported(setting, defs, busy, args[1..], x);
      LeadsOn(defs, AllRefs(args[1..]), AllRefs(args), x);
    }
  }

  lemma {:induction false} NameReported(setting: Setting, defs: Definitions, busy: set<string>, r: string, x: string)
    requires Variable(setting, defs, busy, r) == Err(Circular(x))
    ensures Reaches(Uses(defs), r, x) && (x in busy || OnCycle(Uses(defs), x))
    decreases defs.Keys - busy, 1
  {
    if r in busy {
      ReachesSelf(defs, r);
    } else {
      ReportedIsCircular(setting, defs, busy + {r}, defs[r].expr, x);
      LeadsThrough(defs, r, x);
    }
  }

  // ------------------------------------------------------------------ what is proved of a variable

  /** The variable comes, in any number of definitions, to one that is defined in terms of itself. */
  ghost predicate ReachesCircle(defs: Definitions, name: string) {
    exists x :: Reaches(Uses(defs), name, x) && OnCycle(Uses(defs), x)
  }

  lemma ClearAtFirst(defs: Definitions, name: string)
    ensures Clear(defs, {}, [name]) <==> !ReachesCircle(defs, name)
  {
    assert name in [name];
    forall x ensures Leads(defs, [name], x) <==> Reaches(Uses(defs), name, x) {
    }
    if !Clear(defs, {}, [name]) {
      var x :| Leads(defs, [name], x) && OnCycle(Uses(defs), x);
    }
    if ReachesCircle(defs, name) {
      var x :| Reaches(Uses(defs), name, x) && OnCycle(Uses(defs), x);
      assert Leads(defs, [name], x);
    }
  }

  /** A variable that reaches no circle has the value, or the failure, of its definition with every definition
      inlined. */
  lemma VariableIsInlined(setting: Setting, defs: Definitions, name: string)
    requires !ReachesCircle(defs, name)
    ensures var inlined := InlineName(setting, defs, name, |defs|);
            inlined.Some? && Variable(setting, defs, {}, name) == Plain(setting, inlined.value)
  {
    ClearAtFirst(defs, name);
    NameIsInlined(setting, defs, {}, name);
    assert defs.Keys - {} == defs.Keys;
  }

  /** A variable that reaches a circle has no value, and a circle is reported only where there is one. */
  lemma CircleHasNoValue(setting: Setting, defs: Definitions, name: string)
    ensures ReachesCircle(defs, name) ==> Variable(setting, defs, {}, name).Err?
    ensures forall x :: Variable(setting, defs, {}, name) == Err(Circular(x)) ==>
              Reaches(Uses(defs), name, x) && OnCycle(Uses(defs), x)
  {
    ClearAtFirst(defs, name);
    if Variable(setting, defs, {}, name).Ok? {
      NameMeansClear(setting, defs, {}, name);
    }
    forall x | Variable(setting, defs, {}, name) == Err(Circular(x))
      ensures Reaches(Uses(defs), name, x) && OnCycle(Uses(defs), x)
    {
      NameReported(setting, defs, {}, name, x);
    }
  }

  /** An expression of the language whose operators have a value on all arguments, as sums, differences, products
      and signs have, and quotients and roots have not. */
  ghost predicate Sure(setting: Setting, e: Expr) {
    match e
    case Apply(op, args) =>
      AllSure(setting, args) && forall values :: |values| == |args| ==> setting.apply(op, values).Some?
    case _ => !e.Unsupported?
  }

  ghost predicate AllSure(setting: Setting, args: seq<Expr>) {
    args == [] || (Sure(setting, args[0]) && AllSure(setting, args[1..]))
  }

  /** Each definition these names lead to is blank, or such an expression. */
  ghost predicate SureReached(setting: Setting, defs: Definitions, names: seq<string>) {
    forall r {:trigger Leads(defs, names, r)} :: r in defs && Leads(defs, names, r) ==>
      defs[r].Blank? || (defs[r].Reads? && Sure(setting, defs[r].expr))
  }

  lemma SurePart(setting: Setting, defs: Definitions, names: seq<string>, part: seq<string>)
    requires SureReached(setting, defs, names) && forall r :: r in part ==> r in names
    ensures SureReached(setting, defs, part)
  {
    forall r | r in defs && Leads(defs, part, r)
      ensures defs[r].Blank? || (defs[r].Reads? && Sure(setting, defs[r].expr))
    {
      LeadsOn(defs, part, names, r);
    }
  }

  lemma SureInto(setting: Setting, defs: Definitions, r: string)
    requires SureReached(setting, defs, [r]) && r in defs
    ensures defs[r].Blank? || (defs[r].Reads? && Sure(setting, defs[r].expr))
    ensures SureReached(setting, defs, DefinitionRefs(defs[r]))
  {
    ReachesSelf(defs, r);
    assert r in [r] && Leads(defs, [r], r);
    forall x | x in defs && Leads(defs, DefinitionRefs(defs[r]), x)
      ensures defs[x].Blank? || (defs[x].Reads? && Sure(setting, defs[x].expr))
    {
      LeadsThrough(defs, r, x);
      assert Leads(defs, [r], x);
    }
  }

  lemma {:induction false} OnlyCircles(setting: Setting, defs: Definitions, busy: set<string>, e: Expr)
    requires Sure(setting, e) && SureReached(setting, defs, Refs(e))
    ensures Eval(setting, defs, busy, e).Err? ==> Eval(setting, defs, busy, e).error.Circular?
    decreases defs.Keys - busy, 2, e
  {
    match e
    case Name(name) =>
      var r := Lower(name);
      if r in defs {
        SureInto(setting, defs, r);
        if r !in busy && defs[r].Reads? {
          OnlyCircles(setting, defs, busy + {r}, defs[r].expr);
        }
      }
    case Apply(op, args) => OnlyCirclesInAll(setting, defs, busy, args);
    case _ =>
  }

  lemma {:induction false} OnlyCirclesInAll(setting: Setting, defs: Definitions, busy: set<string>, args: seq<Expr>)
    requires AllSure(setting, args) && SureReached(setting, defs, AllRefs(args))
    ensures var values := EvalAll(setting, defs, busy, args);
            && (values.Err? ==> values.error.Circular?)
            && (values.Ok? ==> |values.value| == |args|)
    decreases defs.Keys - busy, 2, args
  {
    if args != [] {
      SurePart(setting, defs, AllRefs(args), Refs(args[0]));
      SurePart(setting, defs, AllRefs(args), AllRefs(args[1..]));
      OnlyCircles(setting, defs, busy, args[0]);
      OnlyCirclesInAll(setting, defs, busy, args[1..]);
    }
  }

  /** Where no definition that the variable reaches can fail otherwise, a circle is reported exactly when the
      variable reaches one. */
  lemma CircleReportedIff(setting: Setting, defs: Definitions, name: string)
    requires SureReached(setting, defs, [name])
    ensures ReachesCircle(defs, name)
       <==> Variable(setting, defs, {}, name).Err? && Variable(setting, defs, {}, name).error.Circular?
  {
    CircleHasNoValue(setting, defs, name);
    if name in defs {
      SureInto(setting, defs, name);
      if defs[name].Reads? {
        OnlyCircles(setting, defs, {} + {name}, defs[name].expr);
      }
    }
  }

  /** A quotient that fails before the circle is come to is what is reported: `x = 1 / 0 + x`. */
  lemma EarlierFailureIsReported(setting: Setting, defs: Definitions)
    requires setting.apply("/", [1.0, 0.0]).None?
    requires defs == map["x" := Reads(Apply("+", [Apply("/", [Number(1.0), Number(0.0)]), Name("x")]))]
    ensures ReachesCircle(defs, "x") && Variable(setting, defs, {}, "x") == Err(BadArithmetic)
  {
    var quotient := Apply("/", [Number(1.0), Number(0.0)]);
    var args := [quotient, Name("x")];
    QuotientFails(setting, defs, {"x"}, quotient);
    assert EvalAll(setting, defs, {"x"}, args) == Err(BadArithmetic);
    assert {} + {"x"} == {"x"};
    assert args[1..] == [Name("x")] && Lower("x") == "x";
    assert AllRefs(args[1..]) == Refs(args[1]) + AllRefs([]) == ["x"];
    assert AllRefs(args) == Refs(quotient) + AllRefs(args[1..]);
    assert "x" in Refs(defs["x"].expr) && "x" in Out(Uses(defs), "x");
    OneStep(Uses(defs), "x", "x");
    ReachesSelf(defs, "x");
  }

  lemma QuotientFails(setting: Setting, defs: Definitions, busy: set<string>, quotient: Expr)
    requires setting.apply("/", [1.0, 0.0]).None? && quotient == Apply("/", [Number(1.0), Number(0.0)])
    ensures Eval(setting, defs, busy, quotient) == Err(BadArithmetic)
  {
    var args := [Number(1.0), Number(0.0)];
    assert args[1..] == [Number(0.0)] && args[1..][1..] == [];
    assert EvalAll(setting, defs, busy, args[1..][1..]) == Ok([]);
    assert EvalAll(setting, defs, busy, args[1..]) == Ok([0.0] + []);
    assert EvalAll(setting, defs, busy, args) == Ok([1.0] + ([0.0] + []));
    assert [1.0] + ([0.0] + []) == [1.0, 0.0];
  }
}
