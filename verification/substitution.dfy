/** Fresh names and substitution, src/evaluator.ts lines 48-82. */
module Substitution {
  import opened Decimal
  import opened Terms

  /** The candidate name `${id}_${k}`: `id`, an underscore, then the decimal
      digits of `k`. */
  function Name(id: string, k: nat): (n: string)
    ensures |n| > |id| + 1
    ensures n[..|id|] == id && n[|id|] == '_'
    ensures forall i :: |id| < i < |n| ==> IsDigit(n[i])
  {
    id + "_" + NatToString(k)
  }

  /** The length of the longest used name, 0 for none. */
  function MaxLen(used: seq<string>): (m: nat)
    ensures forall i :: 0 <= i < |used| ==> |used[i]| <= m
  {
    if |used| == 0 then 0
    else
      var rest := MaxLen(used[1..]);
      if |used[0]| > rest then |used[0]| else rest
  }

  /** A candidate whose counter reaches 10^MaxLen(used) is longer than every used name. */
  lemma UsedNameBound(id: string, used: seq<string>, k: nat)
    requires Name(id, k) in used
    ensures k < Pow10(MaxLen(used))
  {
    if k >= Pow10(MaxLen(used)) {
      NatToStringLength(k, MaxLen(used));
      assert false;
    }
  }

  /** The first counter from `k` on whose candidate is unused. */
  function FreshIndex(id: string, used: seq<string>, k: nat): (j: nat)
    requires k >= 1
    ensures k <= j
    ensures Name(id, j) !in used
    ensures forall i :: k <= i < j ==> Name(id, i) in used
    decreases Pow10(MaxLen(used)) - k
  {
    if Name(id, k) !in used then k
    else
      UsedNameBound(id, used, k);
      FreshIndex(id, used, k + 1)
  }

  /** `freshVar(id, used)`: the first of `id_1`, `id_2`, ... that is not in `used`. */
  function FreshVar(id: string, used: seq<string>): (x: string)
    ensures x !in used
    ensures exists k: nat :: 1 <= k && x == Name(id, k) && forall i :: 1 <= i < k ==> Name(id, i) in used
  {
    Name(id, FreshIndex(id, used, 1))
  }

  /** The source's counting loop; it stops, and at the name FreshVar describes. */
  method FreshVarLoop(id: string, used: seq<string>) returns (candidate: string)
    ensures candidate !in used
    ensures candidate == FreshVar(id, used)
  {
    var count := 1;
    candidate := id + "_1";
    assert candidate == Name(id, 1);
    ghost var last := FreshIndex(id, used, 1);
    while candidate in used
      invariant 1 <= count <= last
      invariant candidate == Name(id, count)
      decreases last - count
    {
      count := count + 1;
      candidate := id + "_" + NatToString(count);
    }
  }

  /** A candidate name is never the name it was derived from. */
  lemma FreshVarDiffers(id: string, used: seq<string>)
    ensures FreshVar(id, used) != id
  {
  }

  /** `subst(id, sub, exp)` as written: the renaming in the capture case avoids the
      names of the body and of `sub`, but not `id` itself. */
  function SubstAsWritten(id: string, sub: Expr, e: Expr): (r: Expr)
    ensures e.Var? && e.id != id ==> r == e
    ensures e.Lam? ==> r.Lam? && (e.id == id ==> r == e)
    ensures e.App? ==> r.App?
    decreases Size(e)
  {
    match e
    case Var(x) => if x == id then sub else e
    case Lam(x, b) =>
      if x == id then e
      else if x in FreeVars(sub) then
        var y := FreshVar(x, Vars(b) + Vars(sub));
        Lam(y, SubstAsWritten(id, sub, ChangeVar(x, y, b)))
      else Lam(x, SubstAsWritten(id, sub, b))
    case App(f, a) => App(SubstAsWritten(id, sub, f), SubstAsWritten(id, sub, a))
  }

  /** Capture-avoiding substitution: as written, except that the renamed binder
      also avoids `id`, the name being substituted. */
  function Subst(id: string, sub: Expr, e: Expr): (r: Expr)
    ensures e.Var? && e.id != id ==> r == e
    ensures e.Lam? ==> r.Lam? && (e.id == id ==> r == e)
    ensures e.App? ==> r.App?
    decreases Size(e)
  {
    match e
    case Var(x) => if x == id then sub else e
    case Lam(x, b) =>
      if x == id then e
      else if x in FreeVars(sub) then
        var y := FreshVar(x, Vars(b) + Vars(sub) + [id]);
        Lam(y, Subst(id, sub, ChangeVar(x, y, b)))
      else Lam(x, Subst(id, sub, b))
    case App(f, a) => App(Subst(id, sub, f), Subst(id, sub, a))
  }

  /** Both versions: a variable becomes `sub` exactly when it is `id`, and a
      lambda that rebinds `id` is left alone. */
  lemma SubstLeaves(id: string, sub: Expr, x: string, b: Expr)
    ensures Subst(id, sub, Var(x)) == (if x == id then sub else Var(x))
    ensures SubstAsWritten(id, sub, Var(x)) == Subst(id, sub, Var(x))
    ensures Subst(id, sub, Lam(id, b)) == Lam(id, b)
    ensures SubstAsWritten(id, sub, Lam(id, b)) == Lam(id, b)
  {
  }

  /** As written, substitution introduces no free names beyond those of `e`
      other than `id`, and those of `sub`. */
  lemma {:induction false} SubstAsWrittenFreeVarsBound(id: string, sub: Expr, e: Expr)
    ensures forall z :: z in FreeVars(SubstAsWritten(id, sub, e)) ==>
                          (z in FreeVars(e) && z != id) || z in FreeVars(sub)
    decreases Size(e)
  {
    match e
    case Var(_) =>
    case Lam(x, b) =>
      if x == id {
      } else if x in FreeVars(sub) {
        var y := FreshVar(x, Vars(b) + Vars(sub));
        var b' := ChangeVar(x, y, b);
        SubstAsWrittenFreeVarsBound(id, sub, b');
        ChangeVarFreeVarsBound(x, y, b);
      } else {
        SubstAsWrittenFreeVarsBound(id, sub, b);
      }
    case App(f, a) =>
      SubstAsWrittenFreeVarsBound(id, sub, f);
      SubstAsWrittenFreeVarsBound(id, sub, a);
  }

  /** The input on which the as-written renaming picks `id` itself:
      substituting `y` for `y_1` in the closed term `λy.y` yields `λy_1.y`,
      which is not closed, though `y_1` does not occur free in `λy.y`. */
  lemma SubstAsWrittenCapture()
    ensures FreeVars(Lam("y", Var("y"))) == []
    ensures SubstAsWritten("y_1", Var("y"), Lam("y", Var("y"))) == Lam("y_1", Var("y"))
    ensures "y" in FreeVars(SubstAsWritten("y_1", Var("y"), Lam("y", Var("y"))))
  {
  }

  /** The free names of a substitution are exactly the free names of `e` other
      than `id`, plus, when `id` does occur free in `e`, the free names of `sub`. */
  lemma {:induction false} SubstFreeVars(id: string, sub: Expr, e: Expr)
    ensures forall z :: z in FreeVars(Subst(id, sub, e)) <==>
                          (z in FreeVars(e) && z != id) || (id in FreeVars(e) && z in FreeVars(sub))
    decreases Size(e)
  {
    match e
    case Var(_) =>
    case Lam(x, b) =>
      if x == id {
      } else if x in FreeVars(sub) {
        var y := FreshVar(x, Vars(b) + Vars(sub) + [id]);
        var b' := ChangeVar(x, y, b);
        FreshVarDiffers(x, Vars(b) + Vars(sub) + [id]);
        ChangeVarFreeVarsExact(x, y, b);
        SubstFreeVars(id, sub, b');
      } else {
        SubstFreeVars(id, sub, b);
      }
    case App(f, a) =>
      SubstFreeVars(id, sub, f);
      SubstFreeVars(id, sub, a);
  }

  /** Substituting for a name that is not free leaves the free names unchanged. */
  lemma SubstNotFree(id: string, sub: Expr, e: Expr)
    requires id !in FreeVars(e)
    ensures forall z :: z in FreeVars(Subst(id, sub, e)) <==> z in FreeVars(e)
  {
    SubstFreeVars(id, sub, e);
  }
}
