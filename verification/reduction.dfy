/** One-step normal-order reduction and the evaluation loop,
    src/evaluator.ts lines 84-134. */
module Reduction {
  import opened Wrappers
  import opened Terms
  import opened Substitution

  /** A step from a node to one of its children. */
  datatype Dir = Fn | Arg | Body

  /** The subterm reached by following `p`, if `p` leads anywhere. */
  function At(e: Expr, p: seq<Dir>): Option<Expr>
    decreases |p|
  {
    if |p| == 0 then Some(e)
    else match e
      case Var(_) => None
      case Lam(_, b) => if p[0] == Body then At(b, p[1..]) else None
      case App(f, a) =>
        if p[0] == Fn then At(f, p[1..])
        else if p[0] == Arg then At(a, p[1..])
        else None
  }

  /** `e` with the subterm at `p` replaced by `t`. */
  function ReplaceAt(e: Expr, p: seq<Dir>, t: Expr): Expr
    requires At(e, p).Some?
    decreases |p|
  {
    if |p| == 0 then t
    else match e
      case Lam(x, b) => Lam(x, ReplaceAt(b, p[1..], t))
      case App(f, a) =>
        if p[0] == Fn then App(ReplaceAt(f, p[1..], t), a)
        else App(f, ReplaceAt(a, p[1..], t))
  }

  predicate IsRedex(t: Expr) {
    t.App? && t.func.Lam?
  }

  /** There is a redex `(λx.b) a` at position `p` of `e`. */
  predicate RedexAt(e: Expr, p: seq<Dir>) {
    At(e, p).Some? && IsRedex(At(e, p).value)
  }

  /** Beta-normal form: no subterm is an application of a lambda. */
  ghost predicate NormalForm(e: Expr) {
    forall p :: !RedexAt(e, p)
  }

  /** Pre-order on positions: `p` is visited before `q` when it is a proper
      prefix of `q` (outer before inner) or, where they first part, `p` goes
      into the function and `q` into the argument (left before right). */
  predicate Precedes(p: seq<Dir>, q: seq<Dir>) {
    |q| > 0 && (|p| == 0 || (p[0] == Fn && q[0] == Arg) || (p[0] == q[0] && Precedes(p[1..], q[1..])))
  }

  /** `p` holds the redex that comes first in pre-order: the leftmost-outermost one. */
  ghost predicate LeftmostOutermost(e: Expr, p: seq<Dir>) {
    RedexAt(e, p) && forall q :: RedexAt(e, q) ==> q == p || Precedes(p, q)
  }

  /** Contracting a redex: `(λx.b) a` becomes `b[x := a]`, with `subst` as written. */
  function Contract(t: Expr): Expr
    requires IsRedex(t)
  {
    SubstAsWritten(t.func.id, t.arg, t.func.body)
  }

  /** `reduce(exp)`: one step, or None (the source's `undefined`) when there is none. */
  function Reduce(e: Expr): (r: Option<Expr>)
    ensures e.Var? ==> r.None?
    ensures IsRedex(e) ==> r == Some(Contract(e))
    ensures r.Some? && e.Lam? ==> r.value.Lam? && r.value.id == e.id
  {
    match e
    case Var(_) => None
    case Lam(x, b) =>
      (match Reduce(b)
       case Some(b') => Some(Lam(x, b'))
       case None => None)
    case App(f, a) =>
      if f.Lam? then Some(SubstAsWritten(f.id, a, f.body))
      else match Reduce(f)
        case Some(f') => Some(App(f', a))
        case None =>
          match Reduce(a)
          case Some(a') => Some(App(f, a'))
          case None => None
  }

  /** The step the evaluator takes on `(λy_1.λy.y) y` inherits the capture of
      `subst`: the closed function applied to `y` reduces to `λy_1.y`, in which
      `y` is free, where the intended result is the identity `λy_2.y_2`. */
  lemma ReduceCapture()
    ensures Reduce(App(Lam("y_1", Lam("y", Var("y"))), Var("y"))) == Some(Lam("y_1", Var("y")))
    ensures "y" in FreeVars(Reduce(App(Lam("y_1", Lam("y", Var("y"))), Var("y"))).value)
    ensures Subst("y_1", Var("y"), Lam("y", Var("y"))) == Lam("y_2", Var("y_2"))
  {
    SubstAsWrittenCapture();
    var used := Vars(Var("y")) + Vars(Var("y")) + ["y_1"];
    assert Name("y", 1) == "y_1" && Name("y", 2) == "y_2";
    assert FreshIndex("y", used, 2) == 2;
    assert FreshVar("y", used) == "y_2";
  }

  lemma {:induction false} PrecedesIrreflexive(p: seq<Dir>)
    ensures !Precedes(p, p)
    decreases |p|
  {
    if |p| > 0 {
      PrecedesIrreflexive(p[1..]);
    }
  }

  lemma {:induction false} PrecedesAsymmetric(p: seq<Dir>, q: seq<Dir>)
    requires Precedes(p, q)
    ensures !Precedes(q, p)
    decreases |p|
  {
    if |p| > 0 && p[0] == q[0] && Precedes(p[1..], q[1..]) {
      PrecedesAsymmetric(p[1..], q[1..]);
    }
  }

  /** At most one position is the leftmost-outermost redex. */
  lemma LeftmostOutermostUnique(e: Expr, p: seq<Dir>, q: seq<Dir>)
    requires LeftmostOutermost(e, p) && LeftmostOutermost(e, q)
    ensures p == q
  {
    if p != q {
      assert Precedes(p, q) && Precedes(q, p);
      PrecedesAsymmetric(p, q);
    }
  }

  /** When `reduce` finds nothing, no position holds a redex. */
  lemma {:induction false} NoStepNoRedexAt(e: Expr, p: seq<Dir>)
    requires Reduce(e).None?
    ensures !RedexAt(e, p)
    decreases |p|
  {
    if |p| > 0 {
      match e
      case Var(_) =>
      case Lam(_, b) =>
        if p[0] == Body {
          NoStepNoRedexAt(b, p[1..]);
        }
      case App(f, a) =>
        if p[0] == Fn {
          NoStepNoRedexAt(f, p[1..]);
        } else if p[0] == Arg {
          NoStepNoRedexAt(a, p[1..]);
        }
    }
  }

  /** The step `reduce` takes contracts the leftmost-outermost redex, in place. */
  lemma {:induction false} StepPosition(e: Expr) returns (p: seq<Dir>)
    requires Reduce(e).Some?
    ensures LeftmostOutermost(e, p)
    ensures Reduce(e).value == ReplaceAt(e, p, Contract(At(e, p).value))
  {
    match e
    case Lam(x, b) =>
      var pb := StepPosition(b);
      p := [Body] + pb;
      assert p[1..] == pb;
      forall q | RedexAt(e, q)
        ensures q == p || Precedes(p, q)
      {
        assert q != [] && q[0] == Body;
        assert RedexAt(b, q[1..]);
        assert q == [Body] + q[1..];
      }
    case App(f, a) =>
      if f.Lam? {
        p := [];
      } else if Reduce(f).Some? {
        var pf := StepPosition(f);
        p := [Fn] + pf;
        assert p[1..] == pf;
        forall q | RedexAt(e, q)
          ensures q == p || Precedes(p, q)
        {
          assert q != [];
          if q[0] == Fn {
            assert RedexAt(f, q[1..]);
            assert q == [Fn] + q[1..];
          }
        }
      } else {
        var pa := StepPosition(a);
        p := [Arg] + pa;
        assert p[1..] == pa;
        forall q | RedexAt(e, q)
          ensures q == p || Precedes(p, q)
        {
          assert q != [];
          if q[0] == Fn {
            NoStepNoRedexAt(f, q[1..]);
          } else {
            assert q[0] == Arg;
            assert RedexAt(a, q[1..]);
            assert q == [Arg] + q[1..];
          }
        }
      }
  }

  /** `reduce` returns `undefined` exactly on beta-normal forms. */
  lemma ReduceNoneIffNormalForm(e: Expr)
    ensures Reduce(e).None? <==> NormalForm(e)
  {
    if Reduce(e).None? {
      forall p
        ensures !RedexAt(e, p)
      {
        NoStepNoRedexAt(e, p);
      }
    } else {
      var p := StepPosition(e);
    }
  }

  /** `reduce` is normal order: it contracts the leftmost-outermost redex and
      changes nothing else. */
  lemma ReduceIsNormalOrder(e: Expr)
    requires Reduce(e).Some?
    ensures exists p :: LeftmostOutermost(e, p) && Reduce(e).value == ReplaceAt(e, p, Contract(At(e, p).value))
  {
    var p := StepPosition(e);
  }

  /** `evalExp` with a step budget: the normal form reached from `e` within
      `fuel` reductions, or None when the budget runs out first. */
  function EvalExp(e: Expr, fuel: nat): (r: Option<Expr>)
    ensures r.Some? ==> Reduce(r.value).None?
    decreases fuel
  {
    match Reduce(e)
    case None => Some(e)
    case Some(e') => if fuel == 0 then None else EvalExp(e', fuel - 1)
  }

  /** A larger budget never changes an answer: the result is the loop's result. */
  lemma {:induction false} EvalExpFuelMonotone(e: Expr, fuel: nat, more: nat)
    requires EvalExp(e, fuel).Some?
    requires fuel <= more
    ensures EvalExp(e, more) == EvalExp(e, fuel)
    decreases fuel
  {
    match Reduce(e)
    case None =>
    case Some(e') => EvalExpFuelMonotone(e', fuel - 1, more - 1);
  }

  /** The value reached is a beta-normal form. */
  lemma EvalExpNormal(e: Expr, fuel: nat)
    requires EvalExp(e, fuel).Some?
    ensures NormalForm(EvalExp(e, fuel).value)
  {
    ReduceNoneIffNormalForm(EvalExp(e, fuel).value);
  }
}
