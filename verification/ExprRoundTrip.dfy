/** Every complete tree is the parse of some token sequence: its fully parenthesised form. */
module ExprRoundTrip {
  import opened Wrappers
  import opened ExprParser

  function Print<V>(e: Expr<V>): (s: seq<Token<V>>)
    ensures s != [] && !s[0].Infix?
    decreases e, 1 + if e.Call? then |e.args| else 0
  {
    match e
    case Const(v) => [Number(v)]
    case Var(x) => [Variable(x)]
    case Placeholder => [Bad]
    case Call(Named(name, arity, pure), args) =>
      if |args| == 0 then [Fun(name, arity, pure)]
      else if |args| == 1 then [Fun(name, arity, pure)] + Print(args[0])
      else [Fun(name, arity, pure), Open] + PrintFrom(e, 0) + [Close]
    case Call(Op(sym), args) =>
      if |args| == 1 then [Open, Infix(Sub)] + Print(args[0]) + [Close]
      else if |args| == 2 then
        [Open] + Print(args[0]) + [if sym.Comma? then Sep else Infix(sym)] + Print(args[1]) + [Close]
      else [Bad]
  }

  /** Arguments `i` and following, separated by commas. */
  function PrintFrom<V>(e: Expr<V>, i: nat): seq<Token<V>>
    requires e.Call? && i <= |e.args|
    decreases e, |e.args| - i
  {
    if i == |e.args| then []
    else if i + 1 == |e.args| then Print(e.args[i])
    else Print(e.args[i]) + [Sep] + PrintFrom(e, i + 1)
  }

  // ---------- one level of the grammar at a time ----------

  /** `u` is a base that stands for `e` in front of `k`. */
  ghost predicate Unit<V>(u: seq<Token<V>>, e: Expr<V>, k: seq<Token<V>>) {
    u != [] && !u[0].Infix? && Base(u + k) == (e, k)
  }

  ghost predicate NoInfix<V>(k: seq<Token<V>>) {
    k == [] || !k[0].Infix?
  }

  lemma {:induction false} PowerUnit<V>(u: seq<Token<V>>, e: Expr<V>, k: seq<Token<V>>)
    requires Unit(u, e, k)
    ensures Power(u + k) == (e, k)
  {
    assert (u + k)[0] == u[0];
  }

  lemma {:induction false} FactorUnit<V>(u: seq<Token<V>>, e: Expr<V>, k: seq<Token<V>>)
    requires Unit(u, e, k) && !IsInfix(k, {Pow})
    ensures Factor(u + k) == (e, k)
  {
    PowerUnit(u, e, k);
  }

  lemma {:induction false} TermUnit<V>(u: seq<Token<V>>, e: Expr<V>, k: seq<Token<V>>)
    requires Unit(u, e, k) && !IsInfix(k, {Pow, Mul, Div, Mod})
    ensures Term(u + k) == (e, k)
  {
    FactorUnit(u, e, k);
  }

  lemma {:induction false} ExpressionUnit<V>(u: seq<Token<V>>, e: Expr<V>, k: seq<Token<V>>)
    requires Unit(u, e, k) && NoInfix(k)
    ensures Expression(u + k) == (e, k)
  {
    TermUnit(u, e, k);
  }

  /** A power, in front of something that continues no power. */
  lemma {:induction false} PowPrinted<V>(a: seq<Token<V>>, ea: Expr<V>, b: seq<Token<V>>, eb: Expr<V>, k: seq<Token<V>>,
                                         k1: seq<Token<V>>)
    requires k1 == [Infix(Pow)] + (b + k) && Unit(a, ea, k1) && Unit(b, eb, k) && NoInfix(k)
    ensures Factor(a + k1) == (Binary(Pow, ea, eb), k)
  {
    PowerUnit(a, ea, k1);
    PowerUnit(b, eb, k);
    assert Next(k1) == b + k && k1[0] == Infix(Pow);
    assert FactorTail(k, Binary(Pow, ea, eb)) == (Binary(Pow, ea, eb), k);
    assert FactorTail(k1, ea) == (Binary(Pow, ea, eb), k);
  }

  lemma {:induction false} MulPrinted<V>(sym: Sym, a: seq<Token<V>>, ea: Expr<V>, b: seq<Token<V>>, eb: Expr<V>,
                                         k: seq<Token<V>>, k1: seq<Token<V>>)
    requires sym.Mul? || sym.Div? || sym.Mod?
    requires k1 == [Infix(sym)] + (b + k) && Unit(a, ea, k1) && Unit(b, eb, k) && NoInfix(k)
    ensures Term(a + k1) == (Binary(sym, ea, eb), k)
  {
    FactorUnit(a, ea, k1);
    FactorUnit(b, eb, k);
    assert Next(k1) == b + k && k1[0] == Infix(sym);
    assert TermTail(k, Binary(sym, ea, eb)) == (Binary(sym, ea, eb), k);
    assert TermTail(k1, ea) == (Binary(sym, ea, eb), k);
  }

  lemma {:induction false} AddPrinted<V>(sym: Sym, a: seq<Token<V>>, ea: Expr<V>, b: seq<Token<V>>, eb: Expr<V>,
                                         k: seq<Token<V>>, k1: seq<Token<V>>)
    requires sym.Add? || sym.Sub?
    requires k1 == [Infix(sym)] + (b + k) && Unit(a, ea, k1) && Unit(b, eb, k) && NoInfix(k)
    ensures Expression(a + k1) == (Binary(sym, ea, eb), k)
  {
    TermUnit(a, ea, k1);
    TermUnit(b, eb, k);
    assert Next(k1) == b + k && k1[0] == Infix(sym);
    assert ExprTail(k, Binary(sym, ea, eb)) == (Binary(sym, ea, eb), k);
    assert ExprTail(k1, ea) == (Binary(sym, ea, eb), k);
  }

  /** Two operands joined by any operator form one list. */
  lemma {:induction false} BinaryPrinted<V>(sym: Sym, a: seq<Token<V>>, ea: Expr<V>, b: seq<Token<V>>, eb: Expr<V>,
                                            k: seq<Token<V>>, k1: seq<Token<V>>)
    requires !sym.Negate? && k1 == [if sym.Comma? then Sep else Infix(sym)] + (b + k)
    requires Unit(a, ea, k1) && Unit(b, eb, k) && IsClose(k)
    ensures List(a + k1) == (Binary(sym, ea, eb), k)
  {
    match sym
    case Pow => PowPrinted(a, ea, b, eb, k, k1); FactorUp(a + k1, Binary(sym, ea, eb), k);
    case Mul => MulPrinted(sym, a, ea, b, eb, k, k1); TermUp(a + k1, Binary(sym, ea, eb), k);
    case Div => MulPrinted(sym, a, ea, b, eb, k, k1); TermUp(a + k1, Binary(sym, ea, eb), k);
    case Mod => MulPrinted(sym, a, ea, b, eb, k, k1); TermUp(a + k1, Binary(sym, ea, eb), k);
    case Add => AddPrinted(sym, a, ea, b, eb, k, k1);
    case Sub => AddPrinted(sym, a, ea, b, eb, k, k1);
    case Comma =>
      ExpressionUnit(a, ea, k1);
      ExpressionUnit(b, eb, k);
      assert Next(k1) == b + k && k1[0] == Sep;
      assert ListTail(k, Binary(sym, ea, eb)) == (Binary(sym, ea, eb), k);
      assert ListTail(k1, ea) == (Binary(sym, ea, eb), k);
  }

  lemma {:induction false} FactorUp<V>(s: seq<Token<V>>, e: Expr<V>, k: seq<Token<V>>)
    requires Factor(s) == (e, k) && IsClose(k)
    ensures Expression(s) == (e, k)
  {
    assert Term(s) == (e, k);
  }

  lemma {:induction false} TermUp<V>(s: seq<Token<V>>, e: Expr<V>, k: seq<Token<V>>)
    requires Term(s) == (e, k) && IsClose(k)
    ensures Expression(s) == (e, k)
  {
  }

  lemma {:induction false} NegatePrinted<V>(a: seq<Token<V>>, ea: Expr<V>, k: seq<Token<V>>)
    requires Unit(a, ea, k) && IsClose(k)
    ensures List([Infix(Sub)] + (a + k)) == (Call(Op(Negate), [ea]), k)
  {
    var s := [Infix(Sub)] + (a + k);
    assert Next(s) == a + k && (a + k)[0] == a[0];
    assert Signs(a + k, true) == (true, a + k);
    assert Signs(s, false) == (true, a + k);
    assert Power(s) == (Call(Op(Negate), [ea]), k);
    assert Factor(s) == (Call(Op(Negate), [ea]), k);
    FactorUp(s, Call(Op(Negate), [ea]), k);
  }

  // ---------- the whole tree ----------

  lemma {:induction false} ArgsStep<V>(t: Token<V>, u: seq<Token<V>>, a: Expr<V>, k: seq<Token<V>>, arity: nat,
                                       acc: seq<Expr<V>>)
    requires (t.Open? || t.Sep?) && Expression(u + k) == (a, k)
    ensures Args([t] + (u + k), arity, acc) ==
              if IsSep(k) && |acc| + 1 < arity then Args(k, arity, acc + [a]) else (acc + [a], k)
  {
    var s := [t] + (u + k);
    assert Next(s) == u + k && s[0] == t;
  }

  lemma {:induction false} PrintNext<V>(e: Expr<V>, i: nat, k: seq<Token<V>>, k2: seq<Token<V>>)
    requires e.Call? && i + 1 < |e.args| && k2 == [Sep] + (PrintFrom(e, i + 1) + k)
    ensures PrintFrom(e, i) + k == Print(e.args[i]) + k2
  {
    hide Print;
    assert PrintFrom(e, i) == Print(e.args[i]) + [Sep] + PrintFrom(e, i + 1);
  }

  lemma {:induction false} ArgsPrinted<V>(e: Expr<V>, i: nat, t: Token<V>, k: seq<Token<V>>)
    requires e.Call? && Complete(e) && i < |e.args| && (t.Open? || t.Sep?) && IsClose(k)
    ensures Args([t] + (PrintFrom(e, i) + k), |e.args|, e.args[..i]) == (e.args, k)
    decreases e, 0, |e.args| - i
  {
    var n, a := |e.args|, e.args[i];
    assert Complete(a);
    assert e.args[..i] + [a] == e.args[..i + 1];
    if i + 1 == n {
      assert PrintFrom(e, i) == Print(a) && e.args[..i + 1] == e.args;
      hide Args, Print, PrintFrom, Base, Complete;
      BasePrinted(a, k);
      ExpressionUnit(Print(a), a, k);
      ArgsStep(t, Print(a), a, k, n, e.args[..i]);
    } else {
      hide Args, Print, PrintFrom, Base, Complete;
      var k2 := [Sep] + (PrintFrom(e, i + 1) + k);
      BasePrinted(a, k2);
      ExpressionUnit(Print(a), a, k2);
      PrintNext(e, i, k, k2);
      ArgsStep(t, Print(a), a, k2, n, e.args[..i]);
      ArgsPrinted(e, i + 1, Sep, k);
    }
  }

  lemma {:induction false} NamedPrinted<V>(e: Expr<V>, k: seq<Token<V>>)
    requires e.Call? && e.fn.Named? && Complete(e) && |e.args| >= 2
    ensures Unit(Print(e), e, k)
    decreases e, 1, 0
  {
    var f := e.fn;
    var s := Print(e) + k;
    var k1 := [Close] + k;
    ArgsPrinted(e, 0, Open, k1);
    assert e.args[..0] == [];
    assert Next(s) == [Open] + (PrintFrom(e, 0) + k1);
    assert s[0] == Fun(f.name, f.arity, f.pure);
    assert Next(k1) == k;
  }

  lemma {:induction false} BaseParen<V>(inner: seq<Token<V>>, e: Expr<V>, k: seq<Token<V>>)
    requires List(inner) == (e, [Close] + k)
    ensures Base([Open] + inner) == (e, k)
  {
    var s := [Open] + inner;
    assert Next(s) == inner && s[0] == Open;
    assert Next([Close] + k) == k;
  }

  lemma {:induction false} PrintOp<V>(e: Expr<V>, k: seq<Token<V>>, k1: seq<Token<V>>)
    requires e.Call? && e.fn.Op? && |e.args| == Arity(e.fn) && k1 == [Close] + k
    ensures Print(e) + k ==
              if e.fn.sym.Negate? then [Open] + ([Infix(Sub)] + (Print(e.args[0]) + k1))
              else
                var infix := if e.fn.sym.Comma? then Sep else Infix(e.fn.sym);
                [Open] + (Print(e.args[0]) + ([infix] + (Print(e.args[1]) + k1)))
  {
  }

  lemma {:induction false} OperatorPrinted<V>(e: Expr<V>, k: seq<Token<V>>)
    requires e.Call? && e.fn.Op? && Complete(e)
    ensures Unit(Print(e), e, k)
    decreases e, 1, 0
  {
    var sym, a := e.fn.sym, e.args[0];
    assert Complete(a) && (!sym.Negate? ==> Complete(e.args[1]));
    assert e.args == if sym.Negate? then [a] else [a, e.args[1]];
    var k1 := [Close] + k;
    hide Base, Print, Complete, Expression, List;
    PrintOp(e, k, k1);
    if sym.Negate? {
      BasePrinted(a, k1);
      NegatePrinted(Print(a), a, k1);
      BaseParen([Infix(Sub)] + (Print(a) + k1), e, k);
    } else {
      var b := e.args[1];
      var k2 := [if sym.Comma? then Sep else Infix(sym)] + (Print(b) + k1);
      BasePrinted(a, k2);
      BasePrinted(b, k1);
      BinaryPrinted(sym, Print(a), a, Print(b), b, k1, k2);
      BaseParen(Print(a) + k2, e, k);
    }
  }

  /** A printed tree is a base that stands for it, in front of anything but an opening parenthesis. */
  lemma {:induction false} BasePrinted<V>(e: Expr<V>, k: seq<Token<V>>)
    requires Complete(e) && !IsOpen(k)
    ensures Unit(Print(e), e, k)
    decreases e, 2, 0
  {
    var s := Print(e) + k;
    if e.Call? {
      if e.fn.Op? {
        OperatorPrinted(e, k);
      } else if |e.args| >= 2 {
        NamedPrinted(e, k);
      } else if |e.args| == 1 {
        BasePrinted(e.args[0], k);
        PowerUnit(Print(e.args[0]), e.args[0], k);
        assert Next(s) == Print(e.args[0]) + k;
        assert e.args == [e.args[0]];
      } else {
        assert Next(s) == k && e.args == [];
      }
    } else {
      assert Next(s) == k;
    }
  }

  /** The parser finds every complete tree again, and it finds nothing else. */
  lemma {:induction false} ParsePrint<V>(e: Expr<V>)
    ensures Parse(Print(e)) == Some(e) <==> Complete(e)
  {
    if Complete(e) {
      var k: seq<Token<V>> := [];
      BasePrinted(e, k);
      ExpressionUnit(Print(e), e, k);
      assert Print(e) + k == Print(e);
      assert ListTail(k, e) == (e, k);
    }
  }
}
