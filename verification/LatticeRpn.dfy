/**
 Elegant's reverse-Polish expressions: a stack machine whose `sto` sets variables. What an operator does to
 numbers is a parameter, as it may fail; the numbers are exact.
 */
module LatticeRpn {
  import opened Wrappers

  const BINARY := {"+", "-", "*", "/", "pow", "^", "atan2"}
  const UNARY := {"sqrt", "sin", "cos", "tan", "asin", "acos", "atan", "exp", "ln", "log", "abs", "chs", "sqr", "rec"}

  /** A word in lower case, and the number it is if it looks like one. */
  datatype Token = Token(word: string, number: Option<real>)

  datatype Error = Underflow | Arithmetic | CannotRead(word: string) | NoValue

  datatype Operators = Operators(binary: (string, real, real) -> Option<real>, unary: (string, real) -> Option<real>)

  /** How a run ends: its stack, or an error; and the variables as they are then. */
  datatype Run =
    | Done(stack: seq<real>, vars: map<string, real>)
    | Failed(error: Error, vars: map<string, real>)

  // ------------------------------------------------------------------ what the words do

  predicate Stores(tokens: seq<Token>) {
    |tokens| > 1 && tokens[0].number.None? && tokens[0].word == "sto"
  }

  function Pushed(stack: seq<real>, value: Option<real>): Result<seq<real>, Error> {
    match value case Some(v) => Ok(stack + [v]) case None => Err(Arithmetic)
  }

  /** The stack after one word, other than one that stores. */
  function After(ops: Operators, t: Token, stack: seq<real>, vars: map<string, real>): Result<seq<real>, Error> {
    var n := |stack|;
    if t.number.Some? then Ok(stack + [t.number.value])
    else if t.word in BINARY then
      if n < 2 then Err(Underflow) else Pushed(stack[..n - 2], ops.binary(t.word, stack[n - 2], stack[n - 1]))
    else if t.word in UNARY then
      if n < 1 then Err(Underflow) else Pushed(stack[..n - 1], ops.unary(t.word, stack[n - 1]))
    else if t.word in vars then Ok(stack + [vars[t.word]])
    else if t.word == "pop" then
      if n < 1 then Err(Underflow) else Ok(stack[..n - 1])
    else Err(CannotRead(t.word))
  }

  function Exec(ops: Operators, tokens: seq<Token>, stack: seq<real>, vars: map<string, real>): Run {
    if tokens == [] then Done(stack, vars)
    else if Stores(tokens) then
      if stack == [] then Failed(Underflow, vars)
      else Exec(ops, tokens[2..], stack, vars[tokens[1].word := stack[|stack| - 1]])
    else
      match After(ops, tokens[0], stack, vars)
      case Err(e) => Failed(e, vars)
      case Ok(next) => Exec(ops, tokens[1..], next, vars)
  }

  function Outcome(run: Run): Result<real, Error> {
    match run
    case Failed(e, _) => Err(e)
    case Done(stack, _) => if stack == [] then Err(NoValue) else Ok(stack[|stack| - 1])
  }

  // ------------------------------------------------------------------ the machine

  class Machine {
    const ops: Operators
    var vars: map<string, real>

    constructor (ops: Operators, vars: map<string, real>)
      ensures this.ops == ops && this.vars == vars
    {
      this.ops, this.vars := ops, vars;
    }

    /** The value on top when the words are used up. A run that fails keeps what it had stored. */
    method Eval(tokens: seq<Token>) returns (r: Result<real, Error>)
      modifies `vars
      ensures r == Outcome(Exec(ops, tokens, [], old(vars)))
      ensures vars == Exec(ops, tokens, [], old(vars)).vars
    {
      var stack: seq<real> := [];
      var i := 0;
      while i < |tokens|
        invariant i <= |tokens|
        invariant Exec(ops, tokens[i..], stack, vars) == Exec(ops, tokens, [], old(vars))
      {
        if Stores(tokens[i..]) {
          if stack == [] {
            return Err(Underflow);
          }
          vars := vars[tokens[i + 1].word := stack[|stack| - 1]];
          assert tokens[i..][2..] == tokens[i + 2..];
          i := i + 1;
        } else {
          var next := After(ops, tokens[i], stack, vars);
          if next.Err? {
            return Err(next.error);
          }
          stack := next.value;
          assert tokens[i..][1..] == tokens[i + 1..];
        }
        i := i + 1;
      }
      if stack == [] {
        return Err(NoValue);
      }
      return Ok(stack[|stack| - 1]);
    }
  }

  // ------------------------------------------------------------------ expressions, written and calculated

  datatype Expr =
    | Number(value: real, written: string)
    | Name(name: Token)
    | One(op: string, of: Expr)
    | Two(op: string, left: Expr, right: Expr)

  /** The words of an expression, operands first. */
  function Written(e: Expr): seq<Token> {
    match e
    case Number(v, w) => [Token(w, Some(v))]
    case Name(x) => [x]
    case One(op, a) => Written(a) + [Token(op, None)]
    case Two(op, a, b) => Written(a) + Written(b) + [Token(op, None)]
  }

  function Value(ops: Operators, e: Expr, vars: map<string, real>): Option<real> {
    match e
    case Number(v, _) => Some(v)
    case Name(x) => if x.word in vars then Some(vars[x.word]) else None
    case One(op, a) =>
      (match Value(ops, a, vars) case None => None case Some(x) => ops.unary(op, x))
    case Two(op, a, b) =>
      match Value(ops, a, vars)
      case None => None
      case Some(x) =>
        match Value(ops, b, vars)
        case None => None
        case Some(y) => ops.binary(op, x, y)
  }

  /** A word that names nothing but a variable: it is no number, no operator and no word of the machine. */
  predicate PlainName(t: Token) {
    t.number.None? && t.word !in BINARY + UNARY + {"sto", "pop"}
  }

  /** Operators are operators, and variables have plain names. */
  predicate Legible(e: Expr) {
    match e
    case Number(_, _) => true
    case Name(x) => PlainName(x)
    case One(op, a) => op in UNARY && Legible(a)
    case Two(op, a, b) => op in BINARY && Legible(a) && Legible(b)
  }

  lemma OneWord(ops: Operators, t: Token, rest: seq<Token>, stack: seq<real>, vars: map<string, real>)
    requires t.number.Some? || t.word != "sto"
    ensures After(ops, t, stack, vars).Ok? ==>
              Exec(ops, [t] + rest, stack, vars) == Exec(ops, rest, After(ops, t, stack, vars).value, vars)
    ensures After(ops, t, stack, vars).Err? ==>
              Exec(ops, [t] + rest, stack, vars) == Failed(After(ops, t, stack, vars).error, vars)
  {
    assert ([t] + rest)[1..] == rest;
  }

  /** A run is as it should be that had an expression of this value before the rest. */
  ghost predicate Calculated(ops: Operators, run: Run, value: Option<real>, rest: seq<Token>, stack: seq<real>,
                             vars: map<string, real>) {
    match value
    case Some(v) => run == Exec(ops, rest, stack + [v], vars)
    case None => run.Failed? && run.vars == vars
  }

  lemma UnaryIsCalculated(ops: Operators, op: string, x: real, rest: seq<Token>, stack: seq<real>,
                          vars: map<string, real>)
    requires op in UNARY
    ensures Calculated(ops, Exec(ops, [Token(op, None)] + rest, stack + [x], vars), ops.unary(op, x), rest, stack, vars)
  {
    OneWord(ops, Token(op, None), rest, stack + [x], vars);
    assert (stack + [x])[..|stack|] == stack;
  }

  lemma BinaryIsCalculated(ops: Operators, op: string, x: real, y: real, rest: seq<Token>, stack: seq<real>,
                           vars: map<string, real>)
    requires op in BINARY
    ensures Calculated(ops, Exec(ops, [Token(op, None)] + rest, stack + [x] + [y], vars), ops.binary(op, x, y), rest,
                       stack, vars)
  {
    OneWord(ops, Token(op, None), rest, stack + [x] + [y], vars);
    assert (stack + [x] + [y])[..|stack|] == stack;
  }

  /** Writing an expression and running it leaves its value on top of what was there and changes no variable;
      if it has no value the run fails. Whatever is written after it goes on from there. */
  lemma {:induction false} WrittenIsCalculated(ops: Operators, e: Expr, rest: seq<Token>, stack: seq<real>,
                                               vars: map<string, real>)
    requires Legible(e)
    ensures Calculated(ops, Exec(ops, Written(e) + rest, stack, vars), Value(ops, e, vars), rest, stack, vars)
    decreases e
  {
    match e
    case Number(v, w) => OneWord(ops, Token(w, Some(v)), rest, stack, vars);
    case Name(x) => OneWord(ops, x, rest, stack, vars);
    case One(op, a) =>
      var last := [Token(op, None)] + rest;
      assert Written(e) + rest == Written(a) + last;
      WrittenIsCalculated(ops, a, last, stack, vars);
      if Value(ops, a, vars).Some? {
        UnaryIsCalculated(ops, op, Value(ops, a, vars).value, rest, stack, vars);
      }
    case Two(op, a, b) =>
      var last := [Token(op, None)] + rest;
      assert Written(e) + rest == Written(a) + (Written(b) + last);
      WrittenIsCalculated(ops, a, Written(b) + last, stack, vars);
      if Value(ops, a, vars).Some? {
        var x := Value(ops, a, vars).value;
        WrittenIsCalculated(ops, b, last, stack + [x], vars);
        if Value(ops, b, vars).Some? {
          BinaryIsCalculated(ops, op, x, Value(ops, b, vars).value, rest, stack, vars);
        }
      }
  }

  /** An expression alone evaluates to its value, and to nothing when it has none. */
  lemma AnExpressionIsItsValue(ops: Operators, e: Expr, vars: map<string, real>)
    requires Legible(e)
    ensures var r := Outcome(Exec(ops, Written(e), [], vars));
            && (r.Ok? <==> Value(ops, e, vars).Some?)
            && (r.Ok? ==> r.value == Value(ops, e, vars).value)
  {
    WrittenIsCalculated(ops, e, [], [], vars);
    assert Written(e) + [] == Written(e);
  }

  // ------------------------------------------------------------------ definitions

  datatype Definition = Definition(name: Token, value: Expr)

  function Program(definitions: seq<Definition>): seq<Token> {
    if definitions == [] then []
    else
      var d := definitions[0];
      Written(d.value) + [Token("sto", None), d.name] + Program(definitions[1..])
  }

  /** The variables after definitions that each see the ones before. */
  function Defined(ops: Operators, definitions: seq<Definition>, vars: map<string, real>): Option<map<string, real>> {
    if definitions == [] then Some(vars)
    else
      match Value(ops, definitions[0].value, vars)
      case None => None
      case Some(v) => Defined(ops, definitions[1..], vars[definitions[0].name.word := v])
  }

  /** A list of definitions sets each name to its expression's value, given the ones before; it fails exactly
      when one of them has no value. */
  lemma {:induction false} DefinitionsAreSet(ops: Operators, definitions: seq<Definition>, stack: seq<real>,
                                             vars: map<string, real>)
    requires forall d :: d in definitions ==> Legible(d.value)
    ensures var run := Exec(ops, Program(definitions), stack, vars);
            && (run.Done? <==> Defined(ops, definitions, vars).Some?)
            && (run.Done? ==> run.vars == Defined(ops, definitions, vars).value
                              && |run.stack| == |stack| + |definitions| && run.stack[..|stack|] == stack)
    decreases |definitions|
  {
    if definitions != [] {
      var d, more := definitions[0], Program(definitions[1..]);
      var store := [Token("sto", None), d.name];
      assert Program(definitions) == Written(d.value) + (store + more);
      WrittenIsCalculated(ops, d.value, store + more, stack, vars);
      if Value(ops, d.value, vars).Some? {
        var v := Value(ops, d.value, vars).value;
        assert (store + more)[2..] == more;
        DefinitionsAreSet(ops, definitions[1..], stack + [v], vars[d.name.word := v]);
        assert (stack + [v])[..|stack|] == stack;
      }
    }
  }

  // ------------------------------------------------------------------ reading a variable back

  /** The next word is read as this value. */
  predicate Reads(ops: Operators, tokens: seq<Token>, stack: seq<real>, vars: map<string, real>, value: real) {
    tokens != [] && !Stores(tokens) && After(ops, tokens[0], stack, vars) == Ok(stack + [value])
  }

  /** The word a value was stored under is read as that value exactly when it is written like that very number,
      or is no number and no operator, and no `sto` with a word after it. */
  lemma ReadBackIff(ops: Operators, t: Token, rest: seq<Token>, value: real, stack: seq<real>, vars: map<string, real>)
    requires t.word in vars && vars[t.word] == value
    ensures Reads(ops, [t] + rest, stack, vars, value) <==>
              || t.number == Some(value)
              || (t.number.None? && t.word !in BINARY + UNARY && (t.word == "sto" ==> rest == []))
  {
    assert ([t] + rest)[0] == t;
    var n := |stack|;
    if t.number.Some? && t.number.value != value {
      assert (stack + [t.number.value])[n] != (stack + [value])[n];
    }
    forall r: seq<real> | |r| <= n ensures r != stack + [value] {
      assert |stack + [value]| == n + 1;
    }
  }

  lemma StoredThenRead(ops: Operators, five: Token, t: Token, vars: map<string, real>)
    requires five.number == Some(5.0)
    ensures Exec(ops, [five, Token("sto", None), t, t], [], vars) == Exec(ops, [t], [5.0], vars[t.word := 5.0])
  {
    var store := Token("sto", None);
    OneWord(ops, five, [store, t, t], [], vars);
    assert [five] + [store, t, t] == [five, store, t, t] && [] + [5.0] == [5.0];
    assert [store, t, t][2..] == [t];
  }

  /** `5 sto 7 7` stores five, and reads seven. */
  lemma NumberIsNotReadBack(ops: Operators, five: Token, seven: Token, vars: map<string, real>)
    requires five == Token("5", Some(5.0)) && seven == Token("7", Some(7.0))
    ensures Exec(ops, [five, Token("sto", None), seven, seven], [], vars) == Done([5.0, 7.0], vars["7" := 5.0])
  {
    StoredThenRead(ops, five, seven, vars);
    OneWord(ops, seven, [], [5.0], vars["7" := 5.0]);
    assert [seven] + [] == [seven] && [5.0] + [7.0] == [5.0, 7.0];
  }

  /** `5 sto chs chs` stores five, and changes its sign. */
  lemma OperatorIsNotReadBack(ops: Operators, five: Token, minus: Token, vars: map<string, real>)
    requires five == Token("5", Some(5.0)) && minus == Token("chs", None) && ops.unary("chs", 5.0) == Some(-5.0)
    ensures Exec(ops, [five, Token("sto", None), minus, minus], [], vars) == Done([-5.0], vars["chs" := 5.0])
  {
    StoredThenRead(ops, five, minus, vars);
    OneWord(ops, minus, [], [5.0], vars["chs" := 5.0]);
    assert [minus] + [] == [minus] && [5.0][..0] + [-5.0] == [-5.0];
  }

  // ------------------------------------------------------------------ words that stand for no value

  /** `pop` takes away the top, unless a variable is called so. */
  lemma PopIs(ops: Operators, rest: seq<Token>, stack: seq<real>, x: real, vars: map<string, real>)
    requires "pop" !in vars
    ensures Exec(ops, [Token("pop", None)] + rest, stack + [x], vars) == Exec(ops, rest, stack, vars)
    ensures Exec(ops, [Token("pop", None)] + rest, [], vars) == Failed(Underflow, vars)
  {
    OneWord(ops, Token("pop", None), rest, stack + [x], vars);
    OneWord(ops, Token("pop", None), rest, [], vars);
    assert (stack + [x])[..|stack|] == stack;
  }

  /** Nothing is stored or calculated of what is not there, and a word that means nothing stops the run. */
  lemma StopsAt(ops: Operators, t: Token, rest: seq<Token>, stack: seq<real>, vars: map<string, real>)
    requires t.number.None?
    ensures t.word in BINARY && |stack| < 2 ==> Exec(ops, [t] + rest, stack, vars) == Failed(Underflow, vars)
    ensures t.word in UNARY && |stack| < 1 ==> Exec(ops, [t] + rest, stack, vars) == Failed(Underflow, vars)
    ensures t.word == "sto" && rest != [] && stack == [] ==>
              Exec(ops, [t] + rest, stack, vars) == Failed(Underflow, vars)
    ensures PlainName(t) && t.word !in vars ==> Exec(ops, [t] + rest, stack, vars) == Failed(CannotRead(t.word), vars)
  {
    if t.word != "sto" {
      OneWord(ops, t, rest, stack, vars);
    }
  }

  /** A run gives the top of what it leaves, and nothing is no value. */
  lemma TopIsGiven(stack: seq<real>, x: real, vars: map<string, real>)
    ensures Outcome(Done(stack + [x], vars)) == Ok(x) && Outcome(Done([], vars)) == Err(NoValue)
  {
  }

  // ------------------------------------------------------------------ what lies below

  lemma Onto(below: seq<real>, stack: seq<real>, n: nat, x: real)
    requires n <= |stack|
    ensures (below + stack)[..|below| + n] == below + stack[..n]
    ensures (below + stack)[..|below| + n] + [x] == below + (stack[..n] + [x])
  {
  }

  lemma AfterKeepsBelow(ops: Operators, t: Token, below: seq<real>, stack: seq<real>, vars: map<string, real>)
    requires After(ops, t, stack, vars).Ok?
    ensures After(ops, t, below + stack, vars) == Ok(below + After(ops, t, stack, vars).value)
  {
    var n, out := |stack|, After(ops, t, stack, vars).value;
    if t.number.Some? || (t.word !in BINARY + UNARY && t.word in vars) {
      Onto(below, stack, n, out[n]);
      assert (below + stack)[..|below| + n] == below + stack && stack[..n] == stack;
    } else if t.word in BINARY {
      Onto(below, stack, n - 2, out[n - 2]);
    } else if t.word in UNARY {
      Onto(below, stack, n - 1, out[n - 1]);
    } else {
      Onto(below, stack, n - 1, 0.0);
    }
  }

  /** A run that succeeds does the same above anything: it never looks below what it was given. */
  lemma {:induction false} RunKeepsBelow(ops: Operators, tokens: seq<Token>, below: seq<real>, stack: seq<real>,
                                         vars: map<string, real>)
    requires Exec(ops, tokens, stack, vars).Done?
    ensures Exec(ops, tokens, below + stack, vars)
         == Done(below + Exec(ops, tokens, stack, vars).stack, Exec(ops, tokens, stack, vars).vars)
    decreases |tokens|
  {
    if tokens != [] {
      if Stores(tokens) {
        RunKeepsBelow(ops, tokens[2..], below, stack, vars[tokens[1].word := stack[|stack| - 1]]);
      } else {
        AfterKeepsBelow(ops, tokens[0], below, stack, vars);
        RunKeepsBelow(ops, tokens[1..], below, After(ops, tokens[0], stack, vars).value, vars);
      }
    }
  }
}
