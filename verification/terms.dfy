/** Untyped lambda terms and the name bookkeeping of src/evaluator.ts:
    `vars`, `freeVars` and `changeVar`. Name lists are kept as sequences,
    in the order and with the repetitions the source's arrays have. */
module Terms {

  datatype Expr =
    | Var(id: string)
    | Lam(id: string, body: Expr)
    | App(func: Expr, arg: Expr)

  /** Number of nodes; the measure that `subst` decreases. */
  function Size(e: Expr): (n: nat)
    ensures n >= 1
  {
    match e
    case Var(_) => 1
    case Lam(_, b) => 1 + Size(b)
    case App(f, a) => 1 + Size(f) + Size(a)
  }

  /** Same constructors in the same places; names may differ. */
  predicate SameShape(a: Expr, b: Expr) {
    match (a, b)
    case (Var(_), Var(_)) => true
    case (Lam(_, x), Lam(_, y)) => SameShape(x, y)
    case (App(f, x), App(g, y)) => SameShape(f, g) && SameShape(x, y)
    case _ => false
  }

  lemma {:induction false} SameShapeSameSize(a: Expr, b: Expr)
    requires SameShape(a, b)
    ensures Size(a) == Size(b)
  {
    match (a, b)
    case (Var(_), Var(_)) =>
    case (Lam(_, x), Lam(_, y)) => SameShapeSameSize(x, y);
    case (App(f, x), App(g, y)) => SameShapeSameSize(f, g); SameShapeSameSize(x, y);
  }

  /** Every name in the term, bound, binding or free: the body's names, then the binder. */
  function Vars(e: Expr): (vs: seq<string>)
    ensures |vs| == Size(e) - CountApps(e)
  {
    match e
    case Var(x) => [x]
    case Lam(x, b) => Vars(b) + [x]
    case App(f, a) => Vars(f) + Vars(a)
  }

  function CountApps(e: Expr): (n: nat)
    ensures n < Size(e)
  {
    match e
    case Var(_) => 0
    case Lam(_, b) => CountApps(b)
    case App(f, a) => 1 + CountApps(f) + CountApps(a)
  }

  /** `xs.filter(v => v !== x)`. */
  function Remove(xs: seq<string>, x: string): (r: seq<string>)
    ensures forall z :: z in r <==> z in xs && z != x
    ensures |r| <= |xs|
  {
    if |xs| == 0 then []
    else if xs[0] == x then Remove(xs[1..], x)
    else [xs[0]] + Remove(xs[1..], x)
  }

  /** The names occurring free; always among the term's names. */
  function FreeVars(e: Expr): (fv: seq<string>)
    ensures forall z :: z in fv ==> z in Vars(e)
  {
    match e
    case Var(x) => [x]
    case Lam(x, b) => Remove(FreeVars(b), x)
    case App(f, a) => FreeVars(f) + FreeVars(a)
  }

  /** Renames every occurrence of `oldId`, binders included, to `newId`. */
  function ChangeVar(oldId: string, newId: string, e: Expr): (r: Expr)
    ensures SameShape(r, e)
    ensures Size(r) == Size(e)
    ensures oldId !in Vars(e) ==> r == e
    ensures forall z :: z in Vars(r) ==> z in Vars(e) || z == newId
  {
    match e
    case Var(x) => if x == oldId then Var(newId) else e
    case Lam(x, b) =>
      var b' := ChangeVar(oldId, newId, b);
      SameShapeSameSize(b', b);
      if x == oldId then Lam(newId, b') else Lam(x, b')
    case App(f, a) =>
      var f', a' := ChangeVar(oldId, newId, f), ChangeVar(oldId, newId, a);
      SameShapeSameSize(f', f);
      SameShapeSameSize(a', a);
      App(f', a')
  }

  /** A free name of the renamed term other than `newId` was already free in the
      original and is not `oldId`; no freshness of `newId` is needed for this. */
  lemma {:induction false} ChangeVarFreeVarsBound(oldId: string, newId: string, e: Expr)
    ensures forall z :: z in FreeVars(ChangeVar(oldId, newId, e)) && z != newId ==>
                          z in FreeVars(e) && z != oldId
  {
    match e
    case Var(_) =>
    case Lam(_, b) => ChangeVarFreeVarsBound(oldId, newId, b);
    case App(f, a) => ChangeVarFreeVarsBound(oldId, newId, f); ChangeVarFreeVarsBound(oldId, newId, a);
  }

  /** With `newId` fresh, renaming changes the free names exactly by swapping
      a free `oldId` for `newId`. */
  lemma {:induction false} ChangeVarFreeVarsExact(oldId: string, newId: string, e: Expr)
    requires newId !in Vars(e) && newId != oldId
    ensures forall z :: z in FreeVars(ChangeVar(oldId, newId, e)) <==>
                          (z in FreeVars(e) && z != oldId) || (z == newId && oldId in FreeVars(e))
  {
    match e
    case Var(_) =>
    case Lam(_, b) => ChangeVarFreeVarsExact(oldId, newId, b);
    case App(f, a) => ChangeVarFreeVarsExact(oldId, newId, f); ChangeVarFreeVarsExact(oldId, newId, a);
  }
}
