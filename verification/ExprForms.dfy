/** The language of the parser: which token sequences it accepts, and how operators group in them. A form is
    a derivation of the grammar, with its parentheses and signs; it stands for a tree. */
module ExprForms {
  import opened Wrappers
  import opened ExprParser
  import opened ExprRoundTrip

  const LIST := 0
  const POWER := 4
  const BASE := 5

  /** The level of the grammar an operator belongs to; higher binds tighter. */
  function Prec(sym: Sym): nat {
    match sym
    case Comma => LIST
    case Add => 1
    case Sub => 1
    case Mul => 2
    case Div => 2
    case Mod => 2
    case Pow => 3
    case Negate => POWER
  }

  datatype Form<V> =
    | Num(value: V)
    | Name(name: nat)
    | Nullary(name: nat, pure: bool, parens: bool)
    | Unary(name: nat, pure: bool, arg: Form<V>)
    | Nary(name: nat, pure: bool, args: seq<Form<V>>)
    | Paren(inner: Form<V>)
    | Signed(signs: seq<Sym>, arg: Form<V>)
    | Chain(sym: Sym, left: Form<V>, right: Form<V>)

  function Level<V>(c: Form<V>): nat {
    match c
    case Chain(sym, _, _) => Prec(sym)
    case Signed(_, _) => POWER
    case _ => BASE
  }

  /** The left operand binds at least as tight as the operator and the right one tighter; a sign is in front of
      a base, the argument of a one-place function is a base with or without signs. */
  ghost predicate Grouped<V>(c: Form<V>) {
    match c
    case Num(_) => true
    case Name(_) => true
    case Nullary(_, _, _) => true
    case Unary(_, _, a) => Grouped(a) && Level(a) >= POWER
    case Nary(_, _, args) => |args| >= 2 && (forall i :: 0 <= i < |args| ==> Grouped(args[i]) && Level(args[i]) > LIST)
    case Paren(a) => Grouped(a)
    case Signed(signs, a) => signs != [] && AllSigns(signs) && Grouped(a) && Level(a) == BASE
    case Chain(sym, a, b) => !sym.Negate? && Grouped(a) && Grouped(b) && Level(a) >= Prec(sym) && Level(b) > Prec(sym)
  }

  ghost predicate AllSigns(signs: seq<Sym>) {
    forall i :: 0 <= i < |signs| ==> signs[i].Add? || signs[i].Sub?
  }

  /** The number of minus signs. */
  function Minuses(signs: seq<Sym>): nat {
    if signs == [] then 0 else (if signs[0].Sub? then 1 else 0) + Minuses(signs[1..])
  }

  /** What a form stands for: an odd number of minus signs negates. */
  function Tree<V>(c: Form<V>): Expr<V> {
    match c
    case Num(v) => Const(v)
    case Name(x) => Var(x)
    case Nullary(name, pure, _) => Call(Named(name, 0, pure), [])
    case Unary(name, pure, a) => Call(Named(name, 1, pure), [Tree(a)])
    case Nary(name, pure, args) =>
      Call(Named(name, |args|, pure), seq(|args|, i requires 0 <= i < |args| => Tree(args[i])))
    case Paren(a) => Tree(a)
    case Signed(signs, a) => if Minuses(signs) % 2 == 1 then Call(Op(Negate), [Tree(a)]) else Tree(a)
    case Chain(sym, a, b) => Call(Op(sym), [Tree(a), Tree(b)])
  }

  function InfixOf<V>(sym: Sym): Token<V> {
    if sym.Comma? then Sep else Infix(sym)
  }

  function SignTokens<V>(signs: seq<Sym>): (s: seq<Token<V>>)
    ensures |s| == |signs|
  {
    if signs == [] then [] else [Infix(signs[0])] + SignTokens(signs[1..])
  }

  /** How a form is written. */
  function Tokens<V>(c: Form<V>): (s: seq<Token<V>>)
    decreases c, 0
  {
    match c
    case Num(v) => [Number(v)]
    case Name(x) => [Variable(x)]
    case Nullary(name, pure, parens) => [Fun(name, 0, pure)] + if parens then [Open, Close] else []
    case Unary(name, pure, a) => [Fun(name, 1, pure)] + Tokens(a)
    case Nary(name, pure, args) => [Fun(name, |args|, pure), Open] + ArgTokens(args) + [Close]
    case Paren(a) => [Open] + Tokens(a) + [Close]
    case Signed(signs, a) => SignTokens(signs) + Tokens(a)
    case Chain(sym, a, b) => Tokens(a) + [InfixOf(sym)] + Tokens(b)
  }

  /** The arguments, separated by commas. */
  function ArgTokens<V>(args: seq<Form<V>>): seq<Token<V>>
    decreases args, 1
  {
    if args == [] then []
    else if |args| == 1 then Tokens(args[0])
    else Tokens(args[0]) + [Sep] + ArgTokens(args[1..])
  }

  // ---------- the grammar, level by level ----------

  function ParseAt<V>(level: nat, s: seq<Token<V>>): (Expr<V>, seq<Token<V>>)
    requires level <= BASE
  {
    match level
    case 0 => List(s)
    case 1 => Expression(s)
    case 2 => Term(s)
    case 3 => Factor(s)
    case 4 => Power(s)
    case _ => Base(s)
  }

  function TailAt<V>(level: nat, s: seq<Token<V>>, acc: Expr<V>): (Expr<V>, seq<Token<V>>)
    requires level < POWER
  {
    match level
    case 0 => ListTail(s, acc)
    case 1 => ExprTail(s, acc)
    case 2 => TermTail(s, acc)
    case _ => FactorTail(s, acc)
  }

  /** `k` begins with a binary operator. */
  ghost predicate StartsWith<V>(k: seq<Token<V>>, sym: Sym) {
    k != [] && !sym.Negate? && k[0] == InfixOf(sym)
  }

  /** Nothing at the beginning of `k` continues an operand of that level. */
  ghost predicate Stops<V>(level: nat, k: seq<Token<V>>) {
    !IsOpen(k) && forall sym :: StartsWith(k, sym) ==> Prec(sym) < level
  }

  lemma {:induction false} ParseDown<V>(level: nat, s: seq<Token<V>>)
    requires level < POWER
    ensures var (e, s1) := ParseAt(level + 1, s); ParseAt(level, s) == TailAt(level, s1, e)
  {
  }

  lemma {:induction false} TailStop<V>(level: nat, k: seq<Token<V>>, acc: Expr<V>)
    requires level < POWER && forall sym :: StartsWith(k, sym) ==> Prec(sym) != level
    ensures TailAt(level, k, acc) == (acc, k)
  {
    if k != [] && k[0].Infix? && !k[0].sym.Comma? && !k[0].sym.Negate? { assert StartsWith(k, k[0].sym); }
    if IsSep(k) { assert StartsWith(k, Comma); }
  }

  lemma {:induction false} TailMore<V>(sym: Sym, s: seq<Token<V>>, acc: Expr<V>)
    requires !sym.Negate?
    ensures var (e, s1) := ParseAt(Prec(sym) + 1, s);
            TailAt(Prec(sym), [InfixOf(sym)] + s, acc) == TailAt(Prec(sym), s1, Binary(sym, acc, e))
  {
    var k := [InfixOf(sym)] + s;
    assert Next(k) == s && k[0] == InfixOf(sym);
  }

  lemma {:induction false} StopsHigher<V>(level: nat, higher: nat, k: seq<Token<V>>)
    requires Stops(level, k) && level <= higher
    ensures Stops(higher, k)
  {
  }

  /** An operator stops every operand that binds tighter. */
  lemma {:induction false} OperatorStops<V>(sym: Sym, s: seq<Token<V>>)
    requires !sym.Negate?
    ensures Stops(Prec(sym) + 1, [InfixOf(sym)] + s)
  {
    var k := [InfixOf(sym)] + s;
    assert k[0] == InfixOf(sym);
  }

  lemma {:induction false} CloseStops<V>(s: seq<Token<V>>)
    ensures Stops(LIST, [Close] + s) && Next([Close] + s) == s && IsClose([Close] + s)
  {
    assert ([Close] + s)[0] == Close;
  }

  // ---------- every form is found ----------

  ghost predicate Found<V>(c: Form<V>, level: nat, k: seq<Token<V>>) {
    level <= BASE && ParseAt(level, Tokens(c) + k) == (Tree(c), k)
  }

  /** With something behind it that may continue the level. */
  ghost predicate FoundLeft<V>(c: Form<V>, level: nat, k: seq<Token<V>>) {
    level < POWER && ParseAt(level, Tokens(c) + k) == TailAt(level, k, Tree(c))
  }

  /** Only forms with signs begin with an operator. */
  lemma {:induction false} BaseHead<V>(c: Form<V>)
    requires Level(c) == BASE
    ensures Tokens(c) != [] && !Tokens(c)[0].Infix?
  {
    hide ArgTokens;
  }

  lemma {:induction false} SignsRun<V>(signs: seq<Sym>, s: seq<Token<V>>, negative: bool)
    requires AllSigns(signs) && !IsInfix(s, {Add, Sub})
    ensures Signs(SignTokens(signs) + s, negative) == ((Minuses(signs) % 2 == 1) != negative, s)
  {
    if signs == [] {
      assert SignTokens(signs) + s == s;
    } else {
      var all, rest := SignTokens(signs) + s, SignTokens(signs[1..]) + s;
      assert all[0] == Infix(signs[0]) && Next(all) == rest;
      var negative' := if signs[0].Sub? then !negative else negative;
      SignsRun(signs[1..], s, negative');
      assert Signs(all, negative) == Signs(rest, negative');
      hide Signs, SignTokens;
    }
  }

  lemma {:induction false} SignedFound<V>(signs: seq<Sym>, a: Form<V>, k: seq<Token<V>>)
    requires AllSigns(signs) && Level(a) == BASE && Found(a, BASE, k)
    ensures Power(SignTokens(signs) + (Tokens(a) + k))
            == (if Minuses(signs) % 2 == 1 then Call(Op(Negate), [Tree(a)]) else Tree(a), k)
  {
    BaseHead(a);
    var s := Tokens(a) + k;
    assert s[0] == Tokens(a)[0];
    SignsRun(signs, s, false);
    hide Base, Tokens, Signs, SignTokens, Minuses, Tree;
  }

  lemma {:induction false} PowerFound<V>(c: Form<V>, k: seq<Token<V>>)
    requires Level(c) == BASE && Found(c, BASE, k)
    ensures Found(c, POWER, k)
  {
    SignedFound([], c, k);
    assert SignTokens([]) + (Tokens(c) + k) == Tokens(c) + k;
    hide Tokens, Tree, Power;
  }

  lemma {:induction false} LeftHigher<V>(c: Form<V>, level: nat, k: seq<Token<V>>)
    requires level < POWER && Found(c, level + 1, k)
    ensures FoundLeft(c, level, k)
  {
    hide ParseAt, TailAt, Tokens, Tree;
    ParseDown(level, Tokens(c) + k);
  }

  lemma {:induction false} LeftStops<V>(c: Form<V>, level: nat, k: seq<Token<V>>)
    requires FoundLeft(c, level, k) && Stops(level, k)
    ensures Found(c, level, k)
  {
    hide ParseAt, TailAt, Tokens, Tree;
    TailStop(level, k, Tree(c));
  }

  lemma {:induction false} Regroup<T>(a: seq<T>, t: T, b: seq<T>, k: seq<T>)
    ensures a + [t] + b + k == a + ([t] + (b + k))
  {
  }

  lemma {:induction false} ChainTokens<V>(sym: Sym, a: Form<V>, b: Form<V>, k: seq<Token<V>>)
    ensures Tokens(Chain(sym, a, b)) + k == Tokens(a) + ([InfixOf(sym)] + (Tokens(b) + k))
    ensures Tree(Chain(sym, a, b)) == Binary(sym, Tree(a), Tree(b))
  {
    assert Tokens(Chain(sym, a, b)) == Tokens(a) + [InfixOf(sym)] + Tokens(b);
    hide Tokens;
    Regroup(Tokens(a), InfixOf(sym), Tokens(b), k);
  }

  lemma {:induction false} LeftChain<V>(sym: Sym, a: Form<V>, b: Form<V>, k: seq<Token<V>>, k1: seq<Token<V>>)
    requires !sym.Negate? && k1 == [InfixOf(sym)] + (Tokens(b) + k)
    requires FoundLeft(a, Prec(sym), k1) && Found(b, Prec(sym) + 1, k)
    ensures FoundLeft(Chain(sym, a, b), Prec(sym), k)
  {
    hide ParseAt, TailAt, Tokens, Tree, InfixOf, Binary;
    ChainTokens(sym, a, b, k);
    TailMore(sym, Tokens(b) + k, Tree(a));
  }

  lemma {:induction false} ParenFound<V>(a: Form<V>, k: seq<Token<V>>)
    requires Found(a, LIST, [Close] + k)
    ensures Found(Paren(a), BASE, k)
  {
    var inner := Tokens(a) + ([Close] + k);
    assert Tokens(Paren(a)) + k == [Open] + inner;
    hide List, Tokens;
    BaseParen(inner, Tree(a), k);
  }

  lemma {:induction false} NullaryFound<V>(c: Form<V>, k: seq<Token<V>>)
    requires c.Nullary? && !IsOpen(k)
    ensures Found(c, BASE, k)
  {
    var s := Tokens(c) + k;
    assert s[0] == Fun(c.name, 0, c.pure);
    if c.parens {
      assert Next(s) == [Open, Close] + k && Next(Next(s)) == [Close] + k && Next(Next(Next(s))) == k;
    } else {
      assert Next(s) == k;
    }
  }

  lemma {:induction false} UnaryFound<V>(c: Form<V>, k: seq<Token<V>>)
    requires c.Unary? && Found(c.arg, POWER, k)
    ensures Found(c, BASE, k)
  {
    var s := Tokens(c) + k;
    assert s[0] == Fun(c.name, 1, c.pure) && Next(s) == Tokens(c.arg) + k;
    hide Tokens, Power;
  }

  ghost function Trees<V>(args: seq<Form<V>>): seq<Expr<V>> {
    seq(|args|, i requires 0 <= i < |args| => Tree(args[i]))
  }

  lemma {:induction false} ArgTokensNext<V>(args: seq<Form<V>>, k: seq<Token<V>>, acc: seq<Expr<V>>)
    requires |args| >= 2
    ensures ArgTokens(args) + k == Tokens(args[0]) + ([Sep] + (ArgTokens(args[1..]) + k))
    ensures acc + [Tree(args[0])] + Trees(args[1..]) == acc + Trees(args)
  {
    hide Tokens, Tree;
    Regroup(Tokens(args[0]), Sep, ArgTokens(args[1..]), k);
  }

  ghost predicate AllGrouped<V>(args: seq<Form<V>>) {
    forall i :: 0 <= i < |args| ==> Grouped(args[i]) && Level(args[i]) > LIST
  }

  lemma {:induction false} ArgsFound<V>(args: seq<Form<V>>, t: Token<V>, k: seq<Token<V>>, arity: nat,
                                        acc: seq<Expr<V>>)
    requires args != [] && AllGrouped(args) && (t.Open? || t.Sep?) && IsClose(k) && |acc| + |args| == arity
    ensures Args([t] + (ArgTokens(args) + k), arity, acc) == (acc + Trees(args), k)
    decreases args, 0, 0, 0
  {
    var a := args[0];
    if |args| == 1 {
      assert Trees(args) == [Tree(a)] && ArgTokens(args) == Tokens(a);
      hide Args, Tokens, ArgTokens, Grouped, Expression, Tree, Trees;
      FormFound(a, 1, k);
      ArgsStep(t, Tokens(a), Tree(a), k, arity, acc);
    } else {
      assert AllGrouped(args[1..]) && Grouped(a);
      hide Args, Tokens, ArgTokens, AllGrouped, Grouped, Expression, Tree, Trees;
      var k2 := [Sep] + (ArgTokens(args[1..]) + k);
      ArgTokensNext(args, k, acc);
      assert k2[0] == Sep;
      FormFound(a, 1, k2);
      ArgsStep(t, Tokens(a), Tree(a), k2, arity, acc);
      ArgsFound(args[1..], Sep, k, arity, acc + [Tree(a)]);
    }
  }

  lemma {:induction false} NaryFound<V>(c: Form<V>, k: seq<Token<V>>)
    requires c.Nary? && Grouped(c)
    ensures Found(c, BASE, k)
    decreases c, 0, 0, 0
  {
    var k1 := [Close] + k;
    var s := Tokens(c) + k;
    var fun := Fun(c.name, |c.args|, c.pure);
    assert s == [fun] + ([Open] + (ArgTokens(c.args) + k1));
    CloseStops(k);
    ArgsFound(c.args, Open, k1, |c.args|, []);
    assert [] + Trees(c.args) == Trees(c.args);
    assert Next(s) == [Open] + (ArgTokens(c.args) + k1) && s[0] == fun;
    hide Tokens, ArgTokens, Args;
  }

  lemma {:induction false} FormLeft<V>(c: Form<V>, level: nat, k: seq<Token<V>>)
    requires Grouped(c) && level < POWER && level <= Level(c) && Stops(level + 1, k)
    ensures FoundLeft(c, level, k)
    decreases c, 1, BASE - level, 0
  {
    if Level(c) > level {
      FormFound(c, level + 1, k);
      LeftHigher(c, level, k);
    } else {
      var sym, a, b := c.sym, c.left, c.right;
      var k1 := [InfixOf(sym)] + (Tokens(b) + k);
      hide FoundLeft, Found, Tokens;
      OperatorStops(sym, Tokens(b) + k);
      FormLeft(a, level, k1);
      FormFound(b, level + 1, k);
      LeftChain(sym, a, b, k, k1);
    }
  }

  lemma {:induction false} FormFound<V>(c: Form<V>, level: nat, k: seq<Token<V>>)
    requires Grouped(c) && level <= Level(c) && Stops(level, k)
    ensures Found(c, level, k)
    decreases c, 1, BASE - level, 1
  {
    if level < POWER {
      StopsHigher(level, level + 1, k);
      FormLeft(c, level, k);
      LeftStops(c, level, k);
    } else if level == POWER && c.Signed? {
      FormFound(c.arg, BASE, k);
      SignedFound(c.signs, c.arg, k);
      assert Tokens(c) + k == SignTokens(c.signs) + (Tokens(c.arg) + k);
    } else if level == POWER {
      FormFound(c, BASE, k);
      PowerFound(c, k);
    } else {
      BaseFound(c, k);
    }
  }

  lemma {:induction false} BaseFound<V>(c: Form<V>, k: seq<Token<V>>)
    requires Grouped(c) && Level(c) == BASE && !IsOpen(k)
    ensures Found(c, BASE, k)
    decreases c, 1, 0, 0
  {
    match c
    case Num(_) => assert Next(Tokens(c) + k) == k;
    case Name(_) => assert Next(Tokens(c) + k) == k;
    case Nullary(_, _, _) => NullaryFound(c, k);
    case Unary(_, _, a) =>
      FormFound(a, POWER, k);
      UnaryFound(c, k);
    case Nary(_, _, _) => NaryFound(c, k);
    case Paren(a) =>
      CloseStops(k);
      FormFound(a, LIST, [Close] + k);
      ParenFound(a, k);
  }

  // ---------- nothing else is accepted ----------

  /** From `s` the parser got the tree of this form, and stopped behind it. */
  ghost predicate Derives<V>(c: Form<V>, level: nat, s: seq<Token<V>>, r: (Expr<V>, seq<Token<V>>)) {
    Grouped(c) && Level(c) >= level && Tree(c) == r.0 && s == Tokens(c) + r.1
  }

  lemma {:induction false} ParseSound<V>(level: nat, s: seq<Token<V>>)
    requires level <= BASE
    ensures Sound(s, ParseAt(level, s))
  {
  }

  lemma {:induction false} TailSound<V>(level: nat, s: seq<Token<V>>, acc: Expr<V>)
    requires level < POWER
    ensures SoundTail(s, acc, TailAt(level, s, acc))
  {
  }

  lemma {:induction false} FirstToken<V>(s: seq<Token<V>>, t: Token<V>)
    requires s != [] && s[0] == t && !t.Bad?
    ensures s == [t] + Next(s) && Weight(Next(s)) < Weight(s)
  {
  }

  lemma {:induction false} ChainDerives<V>(sym: Sym, a: Form<V>, b: Form<V>, s: seq<Token<V>>, s1: seq<Token<V>>)
    requires StartsWith(s, sym) && Grouped(a) && Level(a) >= Prec(sym)
    requires Derives(b, Prec(sym) + 1, Next(s), (Tree(b), s1))
    ensures Grouped(Chain(sym, a, b)) && Tokens(a) + s == Tokens(Chain(sym, a, b)) + s1
    ensures Tree(Chain(sym, a, b)) == Binary(sym, Tree(a), Tree(b))
  {
    hide Tokens, Tree;
    FirstToken(s, InfixOf(sym));
    ChainTokens(sym, a, b, s1);
  }

  lemma {:induction false} TailDerived<V>(level: nat, s: seq<Token<V>>, a: Form<V>) returns (c: Form<V>)
    requires level < POWER && Grouped(a) && Level(a) >= level && !IsBad(TailAt(level, s, Tree(a)).1)
    ensures Derives(c, level, Tokens(a) + s, TailAt(level, s, Tree(a)))
    decreases Weight(s), 1, 0
  {
    hide ParseAt, TailAt, Tokens, Tree, Grouped, Binary;
    if sym :| StartsWith(s, sym) && Prec(sym) == level {
      FirstToken(s, InfixOf(sym));
      TailMore(sym, Next(s), Tree(a));
      var (e, s1) := ParseAt(level + 1, Next(s));
      ParseSound(level + 1, Next(s));
      TailSound(level, s1, Binary(sym, Tree(a), e));
      var b := Derived(level + 1, Next(s));
      ChainDerives(sym, a, b, s, s1);
      c := TailDerived(level, s1, Chain(sym, a, b));
    } else {
      TailStop(level, s, Tree(a));
      c := a;
    }
  }

  lemma {:induction false} MoreSigns<V>(sym: Sym, rest: seq<Sym>, k: seq<Token<V>>)
    requires (sym.Add? || sym.Sub?) && AllSigns(rest)
    ensures AllSigns([sym] + rest) && SignTokens([sym] + rest) + k == [Infix(sym)] + (SignTokens(rest) + k)
    ensures (Minuses([sym] + rest) % 2 == 1) == ((Minuses(rest) % 2 == 1) != sym.Sub?)
  {
    assert ([sym] + rest)[1..] == rest;
  }

  lemma {:induction false} SignsDerived<V>(s: seq<Token<V>>, negative: bool) returns (signs: seq<Sym>)
    ensures var (n, s1) := Signs(s, negative);
            && AllSigns(signs) && s == SignTokens(signs) + s1 && n == ((Minuses(signs) % 2 == 1) != negative)
    decreases |s|
  {
    if IsInfix(s, {Add, Sub}) {
      var sym := s[0].sym;
      var negative' := if sym.Sub? then !negative else negative;
      assert Signs(s, negative) == Signs(Next(s), negative');
      hide Signs, SignTokens, Minuses, AllSigns;
      var rest := SignsDerived(Next(s), negative');
      signs := [sym] + rest;
      FirstToken(s, Infix(sym));
      MoreSigns(sym, rest, Signs(s, negative).1);
    } else {
      signs := [];
    }
  }

  lemma {:induction false} SignedDerives<V>(signs: seq<Sym>, a: Form<V>, s1: seq<Token<V>>, k: seq<Token<V>>)
    returns (c: Form<V>)
    requires AllSigns(signs) && Derives(a, BASE, s1, (Tree(a), k))
    ensures Derives(c, POWER, SignTokens(signs) + s1,
                    (if Minuses(signs) % 2 == 1 then Call(Op(Negate), [Tree(a)]) else Tree(a), k))
  {
    if signs == [] {
      c := a;
      assert SignTokens(signs) + s1 == s1;
    } else {
      c := Signed(signs, a);
      assert Tokens(c) + k == SignTokens(signs) + (Tokens(a) + k);
    }
  }

  lemma {:induction false} Derived<V>(level: nat, s: seq<Token<V>>) returns (c: Form<V>)
    requires level <= BASE && !IsBad(ParseAt(level, s).1)
    ensures Derives(c, level, s, ParseAt(level, s))
    decreases Weight(s), 2, BASE - level
  {
    if level < POWER {
      hide ParseAt, TailAt, Tokens, Tree, Grouped;
      ParseDown(level, s);
      var (e, s1) := ParseAt(level + 1, s);
      ParseSound(level + 1, s);
      TailSound(level, s1, e);
      var a := Derived(level + 1, s);
      c := TailDerived(level, s1, a);
    } else if level == POWER {
      var (n, s1) := Signs(s, false);
      hide Base, Signs, Tokens, Tree, Grouped, Minuses;
      var signs := SignsDerived(s, false);
      var a := BaseDerived(s1);
      c := SignedDerives(signs, a, s1, Base(s1).1);
    } else {
      c := BaseDerived(s);
    }
  }

  lemma {:induction false} ArgsDerived<V>(s: seq<Token<V>>, arity: nat, acc: seq<Expr<V>>) returns (args: seq<Form<V>>)
    requires (IsOpen(s) || IsSep(s)) && !IsBad(Args(s, arity, acc).1)
    ensures args != [] && AllGrouped(args) && Args(s, arity, acc).0 == acc + Trees(args)
    ensures s == [s[0]] + (ArgTokens(args) + Args(s, arity, acc).1)
    decreases Weight(s), 0, 0
  {
    FirstToken(s, s[0]);
    var (e, s1) := Expression(Next(s));
    var more := IsSep(s1) && |acc| + 1 < arity;
    assert ParseAt(1, Next(s)) == (e, s1) && Weight(s1) < Weight(s);
    assert Args(s, arity, acc) == if more then Args(s1, arity, acc + [e]) else (acc + [e], s1);
    hide Tokens, ArgTokens, Tree, Trees, Grouped, AllGrouped, ParseAt, Expression, Args;
    var a := Derived(1, Next(s));
    if more {
      var rest := ArgsDerived(s1, arity, acc + [e]);
      FirstToken(s1, Sep);
      args := [a] + rest;
      MoreArgs(a, rest, Args(s, arity, acc).1, acc);
    } else {
      args := [a];
      OneArg(a);
    }
  }

  lemma {:induction false} MoreArgs<V>(a: Form<V>, rest: seq<Form<V>>, k: seq<Token<V>>, acc: seq<Expr<V>>)
    requires rest != [] && AllGrouped(rest) && Grouped(a) && Level(a) > LIST
    ensures AllGrouped([a] + rest) && acc + [Tree(a)] + Trees(rest) == acc + Trees([a] + rest)
    ensures ArgTokens([a] + rest) + k == Tokens(a) + ([Sep] + (ArgTokens(rest) + k))
  {
    assert ([a] + rest)[1..] == rest;
    ArgTokensNext([a] + rest, k, acc);
    hide ArgTokens, Trees, Tokens, Grouped;
  }

  lemma {:induction false} OneArg<V>(a: Form<V>)
    ensures Trees([a]) == [Tree(a)] && ArgTokens([a]) == Tokens(a)
    ensures Grouped(a) && Level(a) > LIST ==> AllGrouped([a])
  {
  }

  lemma {:induction false} NaryDerives<V>(name: nat, pure: bool, args: seq<Form<V>>, s: seq<Token<V>>, k: seq<Token<V>>)
    requires |args| >= 2 && AllGrouped(args)
    requires s == [Fun(name, |args|, pure)] + ([Open] + (ArgTokens(args) + ([Close] + k)))
    ensures Derives(Nary(name, pure, args), BASE, s, (Call(Named(name, |args|, pure), Trees(args)), k))
  {
    hide ArgTokens;
  }

  lemma {:induction false} NullaryDerived<V>(s: seq<Token<V>>, name: nat, pure: bool) returns (c: Form<V>)
    requires s != [] && s[0] == Fun(name, 0, pure) && !IsBad(Base(s).1)
    ensures Derives(c, BASE, s, Base(s))
  {
    c := Nullary(name, pure, IsOpen(Next(s)));
    FirstToken(s, s[0]);
    if IsOpen(Next(s)) {
      assert s == [s[0], Open, Close] + Base(s).1;
    }
  }

  lemma {:induction false} UnaryDerives<V>(name: nat, pure: bool, a: Form<V>, s: seq<Token<V>>, k: seq<Token<V>>)
    requires Grouped(a) && Level(a) >= POWER && s == [Fun(name, 1, pure)] + (Tokens(a) + k)
    ensures Derives(Unary(name, pure, a), BASE, s, (Call(Named(name, 1, pure), [Tree(a)]), k))
  {
    assert Tokens(Unary(name, pure, a)) == [Fun(name, 1, pure)] + Tokens(a);
    hide Tokens;
  }

  lemma {:induction false} UnaryDerived<V>(s: seq<Token<V>>, name: nat, pure: bool) returns (c: Form<V>)
    requires s != [] && s[0] == Fun(name, 1, pure) && !IsBad(Base(s).1)
    ensures Derives(c, BASE, s, Base(s))
    decreases Weight(s), 0, 0
  {
    FirstToken(s, s[0]);
    var (e, k) := Power(Next(s));
    assert ParseAt(POWER, Next(s)) == (e, k) && Base(s) == (Call(Named(name, 1, pure), [e]), k);
    hide Tokens, Tree, Grouped, ParseAt, Power, Base;
    var a := Derived(POWER, Next(s));
    c := Unary(name, pure, a);
    UnaryDerives(name, pure, a, s, k);
  }

  lemma {:induction false} NaryDerived<V>(s: seq<Token<V>>, name: nat, arity: nat, pure: bool) returns (c: Form<V>)
    requires s != [] && s[0] == Fun(name, arity, pure) && arity >= 2 && !IsBad(Base(s).1)
    ensures Derives(c, BASE, s, Base(s))
    decreases Weight(s), 0, 0
  {
    FirstToken(s, s[0]);
    var s1 := Next(s);
    assert IsOpen(s1);
    var (es, s2) := Args(s1, arity, []);
    assert IsClose(s2) && |es| == arity && Base(s) == (Call(Named(name, arity, pure), es), Next(s2));
    hide Tokens, Tree, Grouped, Args, Base, ArgTokens;
    var args := ArgsDerived(s1, arity, []);
    assert [] + Trees(args) == Trees(args);
    FirstToken(s2, Close);
    c := Nary(name, pure, args);
    NaryDerives(name, pure, args, s, Next(s2));
  }

  lemma {:induction false} ParenDerives<V>(a: Form<V>, s: seq<Token<V>>, k: seq<Token<V>>)
    requires Grouped(a) && s == [Open] + (Tokens(a) + ([Close] + k))
    ensures Derives(Paren(a), BASE, s, (Tree(a), k))
  {
    assert Tokens(Paren(a)) == [Open] + Tokens(a) + [Close];
    hide Tokens;
  }

  lemma {:induction false} ParenDerived<V>(s: seq<Token<V>>) returns (c: Form<V>)
    requires IsOpen(s) && !IsBad(Base(s).1)
    ensures Derives(c, BASE, s, Base(s))
    decreases Weight(s), 0, 0
  {
    FirstToken(s, s[0]);
    var (e, s1) := List(Next(s));
    assert ParseAt(LIST, Next(s)) == (e, s1) && IsClose(s1) && Base(s) == (e, Next(s1));
    hide Tokens, Tree, Grouped, ParseAt, List, Base;
    var a := Derived(LIST, Next(s));
    FirstToken(s1, Close);
    c := Paren(a);
    ParenDerives(a, s, Next(s1));
  }

  lemma {:induction false} BaseDerived<V>(s: seq<Token<V>>) returns (c: Form<V>)
    requires !IsBad(Base(s).1)
    ensures Derives(c, BASE, s, Base(s))
    decreases Weight(s), 1, 0
  {
    match s[0]
    case Number(v) => c := Num(v);
    case Variable(x) => c := Name(x);
    case Fun(name, arity, pure) =>
      if arity == 0 {
        c := NullaryDerived(s, name, pure);
      } else if arity == 1 {
        c := UnaryDerived(s, name, pure);
      } else {
        c := NaryDerived(s, name, arity, pure);
      }
    case Open => c := ParenDerived(s);
  }

  /** The parser accepts exactly the grouped forms, and what it makes of one is the tree it stands for. */
  lemma {:induction false} ParseIff<V>(s: seq<Token<V>>, e: Expr<V>)
    ensures Parse(s) == Some(e) <==> exists c :: Grouped(c) && Tokens(c) == s && Tree(c) == e
  {
    var k: seq<Token<V>> := [];
    if Parse(s) == Some(e) {
      var c := Derived(LIST, s);
      assert Tokens(c) + k == Tokens(c);
    }
    if c :| Grouped(c) && Tokens(c) == s && Tree(c) == e {
      FormFound(c, LIST, k);
      assert Tokens(c) + k == Tokens(c);
    }
    hide List, Tokens, Tree, Grouped;
  }

  // ---------- the fewest parentheses ----------

  /** The form as an operand that must bind at least as tight as `level`. */
  function Wrap<V>(c: Form<V>, level: nat): Form<V> {
    if Level(c) < level then Paren(c) else c
  }

  /** Parentheses only where precedence or a right operand of the same level needs them. */
  function MinForm<V>(e: Expr<V>): Form<V>
    requires Complete(e)
  {
    match e
    case Const(v) => Num(v)
    case Var(x) => Name(x)
    case Call(Named(name, arity, pure), args) =>
      if arity == 0 then Nullary(name, pure, false)
      else if arity == 1 then Unary(name, pure, Wrap(MinForm(args[0]), POWER))
      else Nary(name, pure, seq(arity, i requires 0 <= i < arity => Wrap(MinForm(args[i]), 1)))
    case Call(Op(sym), args) =>
      if sym.Negate? then Signed([Sub], Wrap(MinForm(args[0]), BASE))
      else Chain(sym, Wrap(MinForm(args[0]), Prec(sym)), Wrap(MinForm(args[1]), Prec(sym) + 1))
  }

  lemma {:induction false} MinFormIs<V>(e: Expr<V>)
    requires Complete(e)
    ensures Grouped(MinForm(e)) && Tree(MinForm(e)) == e
  {
    if e.Call? {
      forall i | 0 <= i < |e.args| ensures Complete(e.args[i]) && Grouped(MinForm(e.args[i]))
                                   ensures Tree(MinForm(e.args[i])) == e.args[i]
      {
        MinFormIs(e.args[i]);
      }
      if e.fn.Op? { MinOperator(e); } else { MinCall(e); }
    }
  }

  lemma {:induction false} WrapIs<V>(c: Form<V>, level: nat)
    requires Grouped(c) && level <= BASE
    ensures Grouped(Wrap(c, level)) && Level(Wrap(c, level)) >= level && Tree(Wrap(c, level)) == Tree(c)
  {
  }

  ghost predicate ArgsOk<V>(e: Expr<V>)
    requires e.Call? && Complete(e)
  {
    forall i :: 0 <= i < |e.args| ==>
      Complete(e.args[i]) && Grouped(MinForm(e.args[i])) && Tree(MinForm(e.args[i])) == e.args[i]
  }

  lemma {:induction false} MinOperator<V>(e: Expr<V>)
    requires e.Call? && e.fn.Op? && Complete(e) && ArgsOk(e)
    ensures Grouped(MinForm(e)) && Tree(MinForm(e)) == e
  {
    var sym, a := e.fn.sym, MinForm(e.args[0]);
    if sym.Negate? {
      assert MinForm(e) == Signed([Sub], Wrap(a, BASE)) && Minuses([Sub]) == 1 && e.args == [e.args[0]];
      WrapIs(a, BASE);
    } else {
      var b := MinForm(e.args[1]);
      assert MinForm(e) == Chain(sym, Wrap(a, Prec(sym)), Wrap(b, Prec(sym) + 1)) && e.args == [e.args[0], e.args[1]];
      WrapIs(a, Prec(sym));
      WrapIs(b, Prec(sym) + 1);
    }
    hide Wrap, MinForm;
  }

  lemma {:induction false} MinCall<V>(e: Expr<V>)
    requires e.Call? && e.fn.Named? && Complete(e) && ArgsOk(e)
    ensures Grouped(MinForm(e)) && Tree(MinForm(e)) == e
  {
    forall i | 0 <= i < |e.args| ensures Complete(e.args[i]) && Grouped(Wrap(MinForm(e.args[i]), 1))
                                 ensures Level(Wrap(MinForm(e.args[i]), 1)) >= 1
                                 ensures Tree(Wrap(MinForm(e.args[i]), 1)) == e.args[i]
    {
      WrapIs(MinForm(e.args[i]), 1);
    }
    if |e.args| == 0 {
      assert e.args == [];
    } else if |e.args| == 1 {
      WrapIs(MinForm(e.args[0]), POWER);
      assert e.args == [e.args[0]];
    } else {
      assert Tree(MinForm(e)).args == e.args;
    }
    hide Wrap;
  }

  /** The parser finds every complete tree from the form with the fewest parentheses. */
  lemma {:induction false} ParseMin<V>(e: Expr<V>)
    requires Complete(e)
    ensures Parse(Tokens(MinForm(e))) == Some(e)
  {
    MinFormIs(e);
    hide Parse, Tokens, MinForm, Complete;
    ParseIff(Tokens(MinForm(e)), e);
  }

  lemma {:induction false} ChainIs<V>(sym: Sym, a: Form<V>, b: Form<V>)
    requires !sym.Negate? && Grouped(a) && Grouped(b) && Level(a) >= Prec(sym) && Level(b) > Prec(sym)
    ensures Grouped(Chain(sym, a, b)) && Tokens(Chain(sym, a, b)) == Tokens(a) + [InfixOf(sym)] + Tokens(b)
    ensures Tree(Chain(sym, a, b)) == Binary(sym, Tree(a), Tree(b))
  {
  }

  /** Two operators in a row: the first one goes first, unless the second binds tighter. */
  lemma {:induction false} Grouping<V>(s: Sym, t: Sym, a: Form<V>, b: Form<V>, c: Form<V>)
    requires !s.Negate? && !t.Negate? && Grouped(a) && Grouped(b) && Grouped(c)
    requires Level(a) == BASE && Level(b) == BASE && Level(c) == BASE
    ensures var x, y, z := Tree(a), Tree(b), Tree(c);
            Parse(Tokens(a) + [InfixOf(s)] + Tokens(b) + [InfixOf(t)] + Tokens(c))
            == Some(if Prec(t) <= Prec(s) then Binary(t, Binary(s, x, y), z) else Binary(s, x, Binary(t, y, z)))
  {
    hide Parse, Tokens, Tree, Grouped, Binary;
    var tokens := Tokens(a) + [InfixOf(s)] + Tokens(b) + [InfixOf(t)] + Tokens(c);
    if Prec(t) <= Prec(s) {
      ChainIs(s, a, b);
      ChainIs(t, Chain(s, a, b), c);
      ParseIff(tokens, Tree(Chain(t, Chain(s, a, b), c)));
    } else {
      ChainIs(t, b, c);
      ChainIs(s, a, Chain(t, b, c));
      assert Tokens(a) + [InfixOf(s)] + (Tokens(b) + [InfixOf(t)] + Tokens(c)) == tokens;
      ParseIff(tokens, Tree(Chain(s, a, Chain(t, b, c))));
    }
  }
}
