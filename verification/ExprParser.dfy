/** tinyexpr.c, the grammar: which tree a token sequence stands for. A token sequence is what the
    scanner has still to deliver, its first token being the current one. */
module ExprParser {
  import opened Wrappers

  datatype Sym = Add | Sub | Mul | Div | Pow | Mod | Comma | Negate

  /** A function of an expression: one of the operators, or a builtin, user function or closure
      with a number of arguments. */
  datatype Fn = Op(sym: Sym) | Named(name: nat, arity: nat, pure: bool)

  datatype Expr<V> =
    | Const(value: V)
    | Var(name: nat)
    | Placeholder
    | Call(fn: Fn, args: seq<Expr<V>>)

  /** `Bad` is TOK_ERROR: something the scanner or the parser refused. The end of the input is the
      empty sequence. */
  datatype Token<V> =
    | Number(value: V)
    | Variable(name: nat)
    | Fun(name: nat, arity: nat, pure: bool)
    | Infix(sym: Sym)
    | Open
    | Close
    | Sep
    | Bad

  function Arity(f: Fn): nat {
    match f
    case Op(sym) => if sym.Negate? then 1 else 2
    case Named(_, arity, _) => arity
  }

  /** Every call has all its arguments, and there is no placeholder. */
  ghost predicate Complete<V>(e: Expr<V>) {
    match e
    case Const(_) => true
    case Var(_) => true
    case Placeholder => false
    case Call(f, args) => |args| == Arity(f) && forall i :: 0 <= i < |args| ==> Complete(args[i])
  }

  ghost predicate AllComplete<V>(args: seq<Expr<V>>) {
    forall i :: 0 <= i < |args| ==> Complete(args[i])
  }

  predicate IsBad<V>(s: seq<Token<V>>) {
    s != [] && s[0].Bad?
  }

  /** Setting the token type to TOK_ERROR. */
  function Fail<V>(): seq<Token<V>> {
    [Bad]
  }

  /** next_token; there is nothing after the end of the input. */
  function Next<V>(s: seq<Token<V>>): seq<Token<V>> {
    if s == [] then s else s[1..]
  }

  function Weight<V>(s: seq<Token<V>>): nat {
    if s == [] || s[0].Bad? then 0 else |s|
  }

  predicate IsInfix<V>(s: seq<Token<V>>, syms: set<Sym>) {
    s != [] && s[0].Infix? && s[0].sym in syms
  }

  predicate IsOpen<V>(s: seq<Token<V>>) { s != [] && s[0].Open? }
  predicate IsClose<V>(s: seq<Token<V>>) { s != [] && s[0].Close? }
  predicate IsSep<V>(s: seq<Token<V>>) { s != [] && s[0].Sep? }

  /** What every parsing function promises: it never goes back, an error stays an error, and a
      result without an error is a complete tree. */
  ghost predicate Sound<V>(s: seq<Token<V>>, r: (Expr<V>, seq<Token<V>>)) {
    Weight(r.1) <= Weight(s) && (!IsBad(r.1) ==> !IsBad(s) && Complete(r.0))
  }

  /** The same for a loop that has built `acc` so far. */
  ghost predicate SoundTail<V>(s: seq<Token<V>>, acc: Expr<V>, r: (Expr<V>, seq<Token<V>>)) {
    Weight(r.1) <= Weight(s) && (!IsBad(r.1) ==> !IsBad(s) && (Complete(acc) ==> Complete(r.0)))
  }

  function Binary<V>(sym: Sym, a: Expr<V>, b: Expr<V>): Expr<V> {
    Call(Op(sym), [a, b])
  }

  /** <base>: constant, variable, function call or parenthesised list. */
  function Base<V>(s: seq<Token<V>>): (r: (Expr<V>, seq<Token<V>>))
    ensures Sound(s, r)
    decreases Weight(s), 0
  {
    if s == [] then (Placeholder, Fail())
    else
      match s[0]
      case Number(v) => (Const(v), Next(s))
      case Variable(x) => (Var(x), Next(s))
      case Fun(name, arity, pure) =>
        var f := Named(name, arity, pure);
        var s1 := Next(s);
        if arity == 0 then
          var r: (Expr<V>, seq<Token<V>>) :=
            (Call(f, []), if !IsOpen(s1) then s1 else if IsClose(Next(s1)) then Next(Next(s1)) else Fail());
          r
        else if arity == 1 then
          var (e, s2) := Power(s1);
          (Call(f, [e]), s2)
        else if !IsOpen(s1) then (Call(f, []), Fail())
        else
          var (args, s2) := Args(s1, arity, []);
          (Call(f, args), if IsClose(s2) && |args| == arity then Next(s2) else Fail())
      case Open =>
        var (e, s1) := List(Next(s));
        (e, if IsClose(s1) then Next(s1) else Fail())
      case _ => (Placeholder, Fail())
  }

  /** The arguments of a call with two or more, from the parenthesis or comma in front of the next one. */
  function Args<V>(s: seq<Token<V>>, arity: nat, acc: seq<Expr<V>>): (r: (seq<Expr<V>>, seq<Token<V>>))
    requires IsOpen(s) || IsSep(s)
    ensures Weight(r.1) < Weight(s)
    ensures !IsBad(r.1) && AllComplete(acc) ==> AllComplete(r.0)
    decreases Weight(s), 10
  {
    var (e, s1) := Expression(Next(s));
    var acc' := acc + [e];
    if IsSep(s1) && |acc'| < arity then Args(s1, arity, acc') else (acc', s1)
  }

  /** Whether an odd number of minus signs leads, and what follows the signs. */
  function Signs<V>(s: seq<Token<V>>, negative: bool): (r: (bool, seq<Token<V>>))
    ensures Weight(r.1) <= Weight(s) && (IsBad(s) ==> IsBad(r.1))
    decreases Weight(s)
  {
    if IsInfix(s, {Add, Sub}) then Signs(Next(s), if s[0].sym.Sub? then !negative else negative) else (negative, s)
  }

  /** <power>. */
  function Power<V>(s: seq<Token<V>>): (r: (Expr<V>, seq<Token<V>>))
    ensures Sound(s, r)
    decreases Weight(s), 1
  {
    var (negative, s1) := Signs(s, false);
    var (e, s2) := Base(s1);
    (if negative then Call(Op(Negate), [e]) else e, s2)
  }

  function FactorTail<V>(s: seq<Token<V>>, acc: Expr<V>): (r: (Expr<V>, seq<Token<V>>))
    ensures SoundTail(s, acc, r)
    decreases Weight(s), 2
  {
    if IsInfix(s, {Pow}) then
      var (e, s1) := Power(Next(s));
      FactorTail(s1, Binary(s[0].sym, acc, e))
    else (acc, s)
  }

  /** <factor>: powers associate to the left. */
  function Factor<V>(s: seq<Token<V>>): (r: (Expr<V>, seq<Token<V>>))
    ensures Sound(s, r)
    decreases Weight(s), 3
  {
    var (e, s1) := Power(s);
    FactorTail(s1, e)
  }

  function TermTail<V>(s: seq<Token<V>>, acc: Expr<V>): (r: (Expr<V>, seq<Token<V>>))
    ensures SoundTail(s, acc, r)
    decreases Weight(s), 4
  {
    if IsInfix(s, {Mul, Div, Mod}) then
      var (e, s1) := Factor(Next(s));
      TermTail(s1, Binary(s[0].sym, acc, e))
    else (acc, s)
  }

  /** <term>. */
  function Term<V>(s: seq<Token<V>>): (r: (Expr<V>, seq<Token<V>>))
    ensures Sound(s, r)
    decreases Weight(s), 5
  {
    var (e, s1) := Factor(s);
    TermTail(s1, e)
  }

  function ExprTail<V>(s: seq<Token<V>>, acc: Expr<V>): (r: (Expr<V>, seq<Token<V>>))
    ensures SoundTail(s, acc, r)
    decreases Weight(s), 6
  {
    if IsInfix(s, {Add, Sub}) then
      var (e, s1) := Term(Next(s));
      ExprTail(s1, Binary(s[0].sym, acc, e))
    else (acc, s)
  }

  /** <expr>. */
  function Expression<V>(s: seq<Token<V>>): (r: (Expr<V>, seq<Token<V>>))
    ensures Sound(s, r)
    decreases Weight(s), 7
  {
    var (e, s1) := Term(s);
    ExprTail(s1, e)
  }

  function ListTail<V>(s: seq<Token<V>>, acc: Expr<V>): (r: (Expr<V>, seq<Token<V>>))
    ensures SoundTail(s, acc, r)
    decreases Weight(s), 8
  {
    if IsSep(s) then
      var (e, s1) := Expression(Next(s));
      ListTail(s1, Binary(Comma, acc, e))
    else (acc, s)
  }

  /** <list>. */
  function List<V>(s: seq<Token<V>>): (r: (Expr<V>, seq<Token<V>>))
    ensures Sound(s, r)
    decreases Weight(s), 9
  {
    var (e, s1) := Expression(s);
    ListTail(s1, e)
  }

  /** te_compile up to the constant folding: the whole input must be consumed. */
  function Parse<V>(s: seq<Token<V>>): (r: Option<Expr<V>>)
    ensures r.Some? ==> Complete(r.value)
  {
    var (e, s1) := List(s);
    if s1 == [] then Some(e) else None
  }
}
