/** tinyexpr.c, the recursive descent over a mutable scanner state, against the grammar. */
module ExprCompiler {
  import P = ExprParser

  /** The state handed from one parsing function to the next. */
  class Parser<V> {
    var ts: seq<P.Token<V>>

    constructor (tokens: seq<P.Token<V>>)
      ensures ts == tokens
    {
      ts := tokens;
    }

    method Base() returns (e: P.Expr<V>)
      modifies this
      ensures (e, ts) == P.Base(old(ts))
      decreases P.Weight(ts), 0
    {
      if ts == [] {
        ts := P.Fail();
        return P.Placeholder;
      }
      match ts[0]
      case Number(v) =>
        ts := P.Next(ts);
        e := P.Const(v);
      case Variable(x) =>
        ts := P.Next(ts);
        e := P.Var(x);
      case Fun(name, arity, pure) =>
        ts := P.Next(ts);
        if arity == 0 {
          e := P.Call(P.Named(name, arity, pure), []);
          if P.IsOpen(ts) {
            ts := P.Next(ts);
            if !P.IsClose(ts) {
              ts := P.Fail();
            } else {
              ts := P.Next(ts);
            }
          }
        } else if arity == 1 {
          var a := Power();
          e := P.Call(P.Named(name, arity, pure), [a]);
        } else if !P.IsOpen(ts) {
          e := P.Call(P.Named(name, arity, pure), []);
          ts := P.Fail();
        } else {
          var args := Args(arity);
          e := P.Call(P.Named(name, arity, pure), args);
          if !P.IsClose(ts) || |args| != arity {
            ts := P.Fail();
          } else {
            ts := P.Next(ts);
          }
        }
      case Open =>
        ts := P.Next(ts);
        e := List();
        if !P.IsClose(ts) {
          ts := P.Fail();
        } else {
          ts := P.Next(ts);
        }
      case _ =>
        ts := P.Fail();
        e := P.Placeholder;
    }

    /** One argument after the other until a comma is missing or all are there. */
    method Args(arity: nat) returns (args: seq<P.Expr<V>>)
      requires P.IsOpen(ts) && arity > 0
      modifies this
      ensures (args, ts) == P.Args(old(ts), arity, []) && P.Weight(ts) < P.Weight(old(ts))
      decreases P.Weight(ts), 10
    {
      args := [];
      var more := true;
      while more
        invariant P.Weight(ts) <= P.Weight(old(ts))
        invariant more ==> (P.IsOpen(ts) || P.IsSep(ts)) && P.Args(ts, arity, args) == P.Args(old(ts), arity, [])
        invariant !more ==> (args, ts) == P.Args(old(ts), arity, [])
        decreases more, P.Weight(ts)
      {
        ts := P.Next(ts);
        var e := Expression();
        args := args + [e];
        more := P.IsSep(ts) && |args| < arity;
      }
    }

    method Power() returns (e: P.Expr<V>)
      modifies this
      ensures (e, ts) == P.Power(old(ts))
      decreases P.Weight(ts), 1
    {
      var negative := false;
      while P.IsInfix(ts, {P.Add, P.Sub})
        invariant P.Signs(ts, negative) == P.Signs(old(ts), false) && P.Weight(ts) <= P.Weight(old(ts))
        decreases P.Weight(ts)
      {
        if ts[0].sym.Sub? {
          negative := !negative;
        }
        ts := P.Next(ts);
      }
      e := Base();
      if negative {
        e := P.Call(P.Op(P.Negate), [e]);
      }
    }

    method Factor() returns (e: P.Expr<V>)
      modifies this
      ensures (e, ts) == P.Factor(old(ts))
      decreases P.Weight(ts), 3
    {
      e := Power();
      while P.IsInfix(ts, {P.Pow})
        invariant P.FactorTail(ts, e) == P.Factor(old(ts)) && P.Weight(ts) <= P.Weight(old(ts))
        decreases P.Weight(ts)
      {
        var sym := ts[0].sym;
        ts := P.Next(ts);
        var b := Power();
        e := P.Binary(sym, e, b);
      }
    }

    method Term() returns (e: P.Expr<V>)
      modifies this
      ensures (e, ts) == P.Term(old(ts))
      decreases P.Weight(ts), 5
    {
      e := Factor();
      while P.IsInfix(ts, {P.Mul, P.Div, P.Mod})
        invariant P.TermTail(ts, e) == P.Term(old(ts)) && P.Weight(ts) <= P.Weight(old(ts))
        decreases P.Weight(ts)
      {
        var sym := ts[0].sym;
        ts := P.Next(ts);
        var b := Factor();
        e := P.Binary(sym, e, b);
      }
    }

    method Expression() returns (e: P.Expr<V>)
      modifies this
      ensures (e, ts) == P.Expression(old(ts))
      decreases P.Weight(ts), 7
    {
      e := Term();
      while P.IsInfix(ts, {P.Add, P.Sub})
        invariant P.ExprTail(ts, e) == P.Expression(old(ts)) && P.Weight(ts) <= P.Weight(old(ts))
        decreases P.Weight(ts)
      {
        var sym := ts[0].sym;
        ts := P.Next(ts);
        var b := Term();
        e := P.Binary(sym, e, b);
      }
    }

    method List() returns (e: P.Expr<V>)
      modifies this
      ensures (e, ts) == P.List(old(ts))
      decreases P.Weight(ts), 9
    {
      e := Expression();
      while P.IsSep(ts)
        invariant P.ListTail(ts, e) == P.List(old(ts)) && P.Weight(ts) <= P.Weight(old(ts))
        decreases P.Weight(ts)
      {
        ts := P.Next(ts);
        var b := Expression();
        e := P.Binary(P.Comma, e, b);
      }
    }
  }
}
