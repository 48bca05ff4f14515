/** tinyexpr.c, evaluation and constant folding. Numbers and functions are left open: any domain of
    values, and any meaning of the functions in which the pure ones are the same whenever they are
    called. */
module ExprEval {
  import opened Wrappers
  import opened ExprParser
  import opened ExprRoundTrip
  import F = ExprForms
  import ExprCompiler

  type Meaning<!V> = (Fn, seq<V>) -> V

  predicate Pure(f: Fn) {
    match f case Op(_) => true case Named(_, _, pure) => pure
  }

  /** te_eval; an argument that is not there is not a number. */
  function Eval<V>(e: Expr<V>, fns: Meaning<V>, vars: nat -> V, nan: V): V
    decreases e, 1
  {
    match e
    case Const(v) => v
    case Var(x) => vars(x)
    case Placeholder => nan
    case Call(f, _) => fns(f, EvalArgs(e, fns, vars, nan))
  }

  function EvalArgs<V>(e: Expr<V>, fns: Meaning<V>, vars: nat -> V, nan: V): (xs: seq<V>)
    requires e.Call?
    ensures |xs| == Arity(e.fn)
    ensures forall i :: 0 <= i < |xs| ==> xs[i] == if i < |e.args| then Eval(e.args[i], fns, vars, nan) else nan
    decreases e, 0
  {
    seq(Arity(e.fn), i requires 0 <= i < Arity(e.fn) => if i < |e.args| then Eval(e.args[i], fns, vars, nan) else nan)
  }

  /** The values of arguments that are all constants. */
  function Values<V>(args: seq<Expr<V>>): seq<V>
    requires forall i :: 0 <= i < |args| ==> args[i].Const?
  {
    seq(|args|, i requires 0 <= i < |args| => args[i].value)
  }

  /** optimize: fold what is known, below pure functions only. */
  function Optimized<V>(e: Expr<V>, fns: Meaning<V>): Expr<V>
    requires Complete(e)
  {
    if !e.Call? || !Pure(e.fn) then e
    else
      var args := seq(|e.args|, i requires 0 <= i < |e.args| => Optimized(e.args[i], fns));
      if forall i :: 0 <= i < |args| ==> args[i].Const? then Const(fns(e.fn, Values(args))) else Call(e.fn, args)
  }

  /** The recursion of optimize with its loop over the arguments. */
  method Optimize<V>(e: Expr<V>, fns: Meaning<V>) returns (r: Expr<V>)
    requires Complete(e)
    ensures r == Optimized(e, fns)
  {
    if !e.Call? || !Pure(e.fn) {
      return e;
    }
    var args, known := e.args, true;
    for i := 0 to |args|
      invariant |args| == |e.args|
      invariant forall k :: 0 <= k < i ==> args[k] == Optimized(e.args[k], fns)
      invariant forall k :: i <= k < |args| ==> args[k] == e.args[k]
      invariant known <==> forall k :: 0 <= k < i ==> args[k].Const?
    {
      var a := Optimize(e.args[i], fns);
      args := args[i := a];
      if !a.Const? {
        known := false;
      }
    }
    assert args == seq(|e.args|, i requires 0 <= i < |e.args| => Optimized(e.args[i], fns));
    r := if known then Const(fns(e.fn, Values(args))) else Call(e.fn, args);
  }

  /** The two agree on the pure functions. */
  ghost predicate Agree<V(!new)>(a: Meaning<V>, b: Meaning<V>) {
    forall f, xs :: Pure(f) ==> a(f, xs) == b(f, xs)
  }

  /** Folding with what the functions mean at compile time changes the value under no binding and
      under no meaning the impure functions may have later; the folded tree is still complete. */
  lemma {:induction false} OptimizeSame<V(!new)>(e: Expr<V>, now: Meaning<V>, later: Meaning<V>, vars: nat -> V, nan: V)
    requires Complete(e) && Agree(now, later)
    ensures Complete(Optimized(e, now))
    ensures Eval(Optimized(e, now), later, vars, nan) == Eval(e, later, vars, nan)
  {
    if e.Call? && Pure(e.fn) {
      var args := seq(|e.args|, i requires 0 <= i < |e.args| => Optimized(e.args[i], now));
      forall i | 0 <= i < |args|
        ensures Complete(args[i]) && Eval(args[i], later, vars, nan) == Eval(e.args[i], later, vars, nan)
      {
        OptimizeSame(e.args[i], now, later, vars, nan);
      }
      SameArgs(e.fn, e.args, args, later, vars, nan);
      if forall i :: 0 <= i < |args| ==> args[i].Const? {
        ConstArgs(e.fn, args, later, vars, nan);
      }
    }
  }

  lemma {:induction false} SameArgs<V>(f: Fn, a: seq<Expr<V>>, b: seq<Expr<V>>, fns: Meaning<V>, vars: nat -> V, nan: V)
    requires |a| == |b| == Arity(f)
    requires forall i :: 0 <= i < |a| ==> Eval(a[i], fns, vars, nan) == Eval(b[i], fns, vars, nan)
    ensures Eval(Call(f, a), fns, vars, nan) == Eval(Call(f, b), fns, vars, nan)
  {
    assert EvalArgs(Call(f, a), fns, vars, nan) == EvalArgs(Call(f, b), fns, vars, nan);
  }

  lemma {:induction false} ConstArgs<V>(f: Fn, args: seq<Expr<V>>, fns: Meaning<V>, vars: nat -> V, nan: V)
    requires |args| == Arity(f) && forall i :: 0 <= i < |args| ==> args[i].Const?
    ensures Eval(Call(f, args), fns, vars, nan) == fns(f, Values(args))
  {
    assert EvalArgs(Call(f, args), fns, vars, nan) == Values(args);
  }

  /** No variable, and only pure functions. */
  ghost predicate Closed<V>(e: Expr<V>) {
    match e
    case Const(_) => true
    case Var(_) => false
    case Placeholder => false
    case Call(f, args) => Pure(f) && forall i :: 0 <= i < |args| ==> Closed(args[i])
  }

  /** A tree folds to one constant exactly if it is free of variables and impure functions. */
  lemma {:induction false} FoldIff<V>(e: Expr<V>, fns: Meaning<V>)
    requires Complete(e)
    ensures Optimized(e, fns).Const? <==> Closed(e)
  {
    if e.Call? && Pure(e.fn) {
      var args := seq(|e.args|, i requires 0 <= i < |e.args| => Optimized(e.args[i], fns));
      forall i | 0 <= i < |args| ensures args[i].Const? <==> Closed(e.args[i]) {
        FoldIff(e.args[i], fns);
      }
      assert (forall i :: 0 <= i < |args| ==> args[i].Const?) <==> Closed(e);
    }
  }

  /** Folding twice is folding once. */
  lemma {:induction false} OptimizeTwice<V>(e: Expr<V>, fns: Meaning<V>)
    requires Complete(e)
    ensures Complete(Optimized(e, fns)) && Optimized(Optimized(e, fns), fns) == Optimized(e, fns)
  {
    if e.Call? && Pure(e.fn) {
      var args := seq(|e.args|, i requires 0 <= i < |e.args| => Optimized(e.args[i], fns));
      forall i | 0 <= i < |args| ensures Complete(args[i]) && Optimized(args[i], fns) == args[i] {
        OptimizeTwice(e.args[i], fns);
      }
      if !(forall i :: 0 <= i < |args| ==> args[i].Const?) {
        var e' := Call(e.fn, args);
        assert Complete(e');
        assert seq(|args|, i requires 0 <= i < |args| => Optimized(args[i], fns)) == args;
      }
    }
  }

  // ---------- compiling ----------

  /** The tree parsed from the whole input, folded. */
  function Compiled<V>(tokens: seq<Token<V>>, fns: Meaning<V>): Option<Expr<V>> {
    match Parse(tokens) case None => None case Some(e) => Some(Optimized(e, fns))
  }

  /** te_compile. */
  method Compile<V>(tokens: seq<Token<V>>, fns: Meaning<V>) returns (r: Option<Expr<V>>)
    ensures r == Compiled(tokens, fns) && (r.Some? ==> Complete(r.value))
  {
    var p := new ExprCompiler.Parser(tokens);
    var root := p.List();
    if p.ts != [] {
      return None;
    }
    assert Parse(tokens) == Some(root);
    OptimizeTwice(root, fns);
    var folded := Optimize(root, fns);
    r := Some(folded);
  }

  /** What compiles has the value of the tree that was written down, whenever it is evaluated. */
  lemma {:induction false} CompiledValue<V(!new)>(tokens: seq<Token<V>>, now: Meaning<V>, later: Meaning<V>,
                                                  vars: nat -> V, nan: V)
    requires Agree(now, later)
    ensures Compiled(tokens, now).Some? <==> Parse(tokens).Some?
    ensures Parse(tokens).Some? ==>
              Eval(Compiled(tokens, now).value, later, vars, nan) == Eval(Parse(tokens).value, later, vars, nan)
  {
    if Parse(tokens).Some? {
      OptimizeSame(Parse(tokens).value, now, later, vars, nan);
    }
    hide Parse, Optimized, Eval;
  }

  /** Every complete tree can be written down so that it compiles, to a tree of its own value. */
  lemma {:induction false} CompileMeaning<V(!new)>(e: Expr<V>, now: Meaning<V>, later: Meaning<V>, vars: nat -> V,
                                                   nan: V)
    requires Complete(e) && Agree(now, later)
    ensures Compiled(Print(e), now).Some?
            && Eval(Compiled(Print(e), now).value, later, vars, nan) == Eval(e, later, vars, nan)
  {
    ParsePrint(e);
    CompiledValue(Print(e), now, later, vars, nan);
  }

  // ---------- what is written down ----------

  /** The value of a form, read directly: each operator applied to the values at its left and right. */
  ghost function Value<V>(c: F.Form<V>, fns: Meaning<V>, vars: nat -> V): V {
    match c
    case Num(v) => v
    case Name(x) => vars(x)
    case Nullary(name, pure, _) => fns(Named(name, 0, pure), [])
    case Unary(name, pure, a) => fns(Named(name, 1, pure), [Value(a, fns, vars)])
    case Nary(name, pure, args) =>
      fns(Named(name, |args|, pure), seq(|args|, i requires 0 <= i < |args| => Value(args[i], fns, vars)))
    case Paren(a) => Value(a, fns, vars)
    case Signed(signs, a) =>
      if F.Minuses(signs) % 2 == 1 then fns(Op(Negate), [Value(a, fns, vars)]) else Value(a, fns, vars)
    case Chain(sym, a, b) => fns(Op(sym), [Value(a, fns, vars), Value(b, fns, vars)])
  }

  lemma {:induction false} ArgValues<V>(e: Expr<V>, fns: Meaning<V>, vars: nat -> V, nan: V, xs: seq<V>)
    requires e.Call? && |e.args| == |xs| == Arity(e.fn)
    requires forall i :: 0 <= i < |xs| ==> Eval(e.args[i], fns, vars, nan) == xs[i]
    ensures Eval(e, fns, vars, nan) == fns(e.fn, xs)
  {
    assert EvalArgs(e, fns, vars, nan) == xs;
  }

  lemma {:induction false} TreeValue<V>(c: F.Form<V>, fns: Meaning<V>, vars: nat -> V, nan: V)
    requires F.Grouped(c)
    ensures Eval(F.Tree(c), fns, vars, nan) == Value(c, fns, vars)
  {
    var e := F.Tree(c);
    match c
    case Num(_) =>
    case Name(_) =>
    case Nullary(_, _, _) => ArgValues(e, fns, vars, nan, []);
    case Unary(_, _, a) =>
      TreeValue(a, fns, vars, nan);
      ArgValues(e, fns, vars, nan, [Value(a, fns, vars)]);
    case Nary(_, _, args) =>
      forall i | 0 <= i < |args| ensures Eval(F.Tree(args[i]), fns, vars, nan) == Value(args[i], fns, vars) {
        TreeValue(args[i], fns, vars, nan);
      }
      ArgValues(e, fns, vars, nan, seq(|args|, i requires 0 <= i < |args| => Value(args[i], fns, vars)));
    case Paren(a) => TreeValue(a, fns, vars, nan);
    case Signed(signs, a) =>
      TreeValue(a, fns, vars, nan);
      if F.Minuses(signs) % 2 == 1 { ArgValues(e, fns, vars, nan, [Value(a, fns, vars)]); }
    case Chain(_, a, b) =>
      TreeValue(a, fns, vars, nan);
      TreeValue(b, fns, vars, nan);
      ArgValues(e, fns, vars, nan, [Value(a, fns, vars), Value(b, fns, vars)]);
  }

  /** Whatever is written down in a form of the grammar compiles, and evaluates to what it says. */
  lemma {:induction false} WrittenValue<V(!new)>(c: F.Form<V>, now: Meaning<V>, later: Meaning<V>, vars: nat -> V,
                                                 nan: V)
    requires F.Grouped(c) && Agree(now, later)
    ensures Compiled(F.Tokens(c), now).Some?
            && Eval(Compiled(F.Tokens(c), now).value, later, vars, nan) == Value(c, later, vars)
  {
    hide Eval, Value, Parse, Optimized;
    F.ParseIff(F.Tokens(c), F.Tree(c));
    CompiledValue(F.Tokens(c), now, later, vars, nan);
    TreeValue(c, later, vars, nan);
  }

  /** The operators on whole numbers; what others mean is left open. */
  ghost predicate Whole(fns: Meaning<int>) {
    forall x, y :: fns(Op(Sub), [x, y]) == x - y && fns(Op(Add), [x, y]) == x + y && fns(Op(Mul), [x, y]) == x * y
  }

  /** `a - b - c` is evaluated from left to right, and a product in `a - b * c` before the difference. */
  lemma {:induction false} LeftToRight(a: int, b: int, c: int, fns: Meaning<int>, vars: nat -> int, nan: int)
    requires Whole(fns)
    ensures var r := Compiled([Number(a), Infix(Sub), Number(b), Infix(Sub), Number(c)], fns);
            r.Some? && Eval(r.value, fns, vars, nan) == (a - b) - c
    ensures var r := Compiled([Number(a), Infix(Sub), Number(b), Infix(Mul), Number(c)], fns);
            r.Some? && Eval(r.value, fns, vars, nan) == a - b * c
  {
    var x: F.Form<int>, y: F.Form<int>, z: F.Form<int> := F.Num(a), F.Num(b), F.Num(c);
    var first, product := F.Chain(Sub, x, y), F.Chain(Mul, y, z);
    assert Value(x, fns, vars) == a && Value(y, fns, vars) == b && Value(z, fns, vars) == c;
    assert Value(first, fns, vars) == a - b && Value(product, fns, vars) == b * c;
    assert Value(F.Chain(Sub, first, z), fns, vars) == (a - b) - c;
    assert Value(F.Chain(Sub, x, product), fns, vars) == a - b * c;
    assert F.Tokens(x) == [Number(a)] && F.Tokens(y) == [Number(b)] && F.Tokens(z) == [Number(c)];
    assert F.Grouped(x) && F.Grouped(y) && F.Grouped(z);
    hide Compiled, Eval, Value, F.Tokens, F.Grouped;
    F.ChainIs(Sub, x, y);
    F.ChainIs(Sub, first, z);
    F.ChainIs(Mul, y, z);
    F.ChainIs(Sub, x, product);
    WrittenValue(F.Chain(Sub, first, z), fns, fns, vars, nan);
    WrittenValue(F.Chain(Sub, x, product), fns, fns, vars, nan);
    assert [Number(a)] + [Infix(Sub)] + [Number(b)] + [Infix(Sub)] + [Number(c)]
        == [Number(a), Infix(Sub), Number(b), Infix(Sub), Number(c)];
    assert [Number(a)] + [Infix(Sub)] + ([Number(b)] + [Infix(Mul)] + [Number(c)])
        == [Number(a), Infix(Sub), Number(b), Infix(Mul), Number(c)];
  }
}
