/** `printExp`, src/printer.ts: prints a term with parentheses around a function
    exactly when it is a lambda, and around an argument exactly when it is a
    lambda or an application; enough to keep application left-associative and
    lambda bodies extending rightwards. */
module Printer {
  import opened Terms

  /** The glyph `λ` (U+03BB) that starts a printed abstraction. */
  const Lambda: char := '\U{03BB}'

  function Parenthesize(s: string, wrap: bool): string {
    if wrap then "(" + s + ")" else s
  }

  /** `printExp`: an abstraction prints starting with `λ`; an application
      always contains the space that separates function from argument. */
  function PrintExp(e: Expr): (r: string)
    ensures e.Lam? ==> |r| > 0 && r[0] == Lambda
    ensures e.App? ==> ' ' in r
  {
    match e
    case Var(x) => x
    case Lam(x, b) => [Lambda] + x + "." + PrintExp(b)
    case App(f, a) => Parenthesize(PrintExp(f), f.Lam?) + " " + Parenthesize(PrintExp(a), a.Lam? || a.App?)
  }

  /** Identifier characters: those the lexer of src/parser.ts:25 accepts, whose
      rule against a leading digit the printer does not need. */
  predicate IdChar(c: char) {
    ('A' <= c <= 'Z') || ('a' <= c <= 'z') || ('0' <= c <= '9') || c == '_'
  }

  predicate ValidId(s: string) {
    |s| > 0 && forall i :: 0 <= i < |s| ==> IdChar(s[i])
  }

  /** Every name in the term is a valid identifier. */
  predicate WellFormed(e: Expr) {
    match e
    case Var(x) => ValidId(x)
    case Lam(x, b) => ValidId(x) && WellFormed(b)
    case App(f, a) => WellFormed(f) && WellFormed(a)
  }

  function CountLams(e: Expr): nat {
    match e
    case Var(_) => 0
    case Lam(_, b) => 1 + CountLams(b)
    case App(f, a) => CountLams(f) + CountLams(a)
  }

  /** The innermost function of a chain of applications. */
  function Head(e: Expr): Expr {
    if e.App? then Head(e.func) else e
  }

  function Count(s: string, c: char): nat {
    if |s| == 0 then 0 else (if s[0] == c then 1 else 0) + Count(s[1..], c)
  }

  /** Open minus close parentheses. */
  function Depth(s: string): int {
    if |s| == 0 then 0
    else (if s[0] == '(' then 1 else if s[0] == ')' then -1 else 0) + Depth(s[1..])
  }

  /** Parentheses match: no prefix closes more than it opened, and all are closed. */
  predicate Balanced(s: string) {
    Depth(s) == 0 && forall i :: 0 <= i <= |s| ==> Depth(s[..i]) >= 0
  }

  /** Every occurrence of `c` lies inside some pair of parentheses. */
  predicate Nested(s: string, c: char) {
    forall i :: 0 <= i < |s| && s[i] == c ==> Depth(s[..i]) > 0
  }

  lemma {:induction false} CountConcat(a: string, b: string, c: char)
    ensures Count(a + b, c) == Count(a, c) + Count(b, c)
    decreases |a|
  {
    if |a| == 0 {
      assert a + b == b;
    } else {
      assert (a + b)[0] == a[0];
      assert (a + b)[1..] == a[1..] + b;
      CountConcat(a[1..], b, c);
    }
  }

  lemma CountSingle(x: char, c: char)
    ensures Count([x], c) == if x == c then 1 else 0
  {
  }

  lemma {:induction false} DepthConcat(a: string, b: string)
    ensures Depth(a + b) == Depth(a) + Depth(b)
    decreases |a|
  {
    if |a| == 0 {
      assert a + b == b;
    } else {
      assert (a + b)[0] == a[0];
      assert (a + b)[1..] == a[1..] + b;
      DepthConcat(a[1..], b);
    }
  }

  /** No parentheses at all. */
  predicate Flat(s: string) {
    forall i :: 0 <= i < |s| ==> s[i] != '(' && s[i] != ')'
  }

  lemma {:induction false} FlatDepth(s: string)
    requires Flat(s)
    ensures Depth(s) == 0
    decreases |s|
  {
    if |s| > 0 {
      FlatDepth(s[1..]);
    }
  }

  lemma {:induction false} IdCounts(s: string)
    requires forall i :: 0 <= i < |s| ==> IdChar(s[i])
    ensures Count(s, Lambda) == 0 && Count(s, ' ') == 0 && Count(s, '.') == 0
    decreases |s|
  {
    if |s| > 0 {
      assert IdChar(s[0]);
      IdCounts(s[1..]);
    }
  }

  lemma FlatBalanced(s: string)
    requires Flat(s)
    ensures Balanced(s)
    ensures forall i :: 0 <= i <= |s| ==> Depth(s[..i]) == 0
  {
    forall i | 0 <= i <= |s|
      ensures Depth(s[..i]) == 0
    {
      assert Flat(s[..i]);
      FlatDepth(s[..i]);
    }
    assert s[..|s|] == s;
  }

  lemma IdBalanced(s: string)
    requires ValidId(s)
    ensures Balanced(s)
    ensures Nested(s, Lambda) && Nested(s, ' ')
  {
    FlatBalanced(s);
    forall i | 0 <= i < |s|
      ensures s[i] != Lambda && s[i] != ' '
    {
      assert IdChar(s[i]);
    }
  }

  lemma PrefixOfConcat(a: string, b: string, i: nat)
    requires |a| <= i <= |a| + |b|
    ensures (a + b)[..i] == a + b[..i - |a|]
  {
  }

  lemma BalancedConcat(a: string, b: string)
    requires Balanced(a) && Balanced(b)
    ensures Balanced(a + b)
  {
    DepthConcat(a, b);
    forall i | 0 <= i <= |a + b|
      ensures Depth((a + b)[..i]) >= 0
    {
      if i <= |a| {
        assert (a + b)[..i] == a[..i];
      } else {
        PrefixOfConcat(a, b, i);
        DepthConcat(a, b[..i - |a|]);
      }
    }
  }

  /** The text is a single parenthesised group: only the whole of it closes
      every parenthesis it opens. */
  predicate Enclosed(w: string) {
    forall i :: 0 < i < |w| ==> Depth(w[..i]) > 0
  }

  /** Wrapping a balanced string keeps it balanced and nests everything inside. */
  lemma ParenthesizeBalanced(s: string, c: char)
    requires Balanced(s) && c != '(' && c != ')'
    ensures Balanced("(" + s + ")")
    ensures Nested("(" + s + ")", c)
    ensures Enclosed("(" + s + ")")
  {
    var w := "(" + s + ")";
    assert w == ("(" + s) + ")";
    DepthConcat("(", s);
    DepthConcat("(" + s, ")");
    forall i | 0 <= i <= |w|
      ensures Depth(w[..i]) >= 0
      ensures 0 < i <= |s| + 1 ==> Depth(w[..i]) > 0
    {
      if 0 < i <= |s| + 1 {
        assert w[..i] == "(" + s[..i - 1];
        DepthConcat("(", s[..i - 1]);
      } else if i == |w| {
        assert w[..i] == w;
      }
    }
  }

  /** Printed terms have balanced parentheses (identifiers contain none). */
  lemma {:induction false} PrintBalanced(e: Expr)
    requires WellFormed(e)
    ensures Balanced(PrintExp(e))
  {
    match e
    case Var(x) => IdBalanced(x);
    case Lam(x, b) =>
      PrintBalanced(b);
      IdBalanced(x);
      FlatBalanced([Lambda] + x + ".");
      assert [Lambda] + x + "." + PrintExp(b) == ([Lambda] + x + ".") + PrintExp(b);
      BalancedConcat([Lambda] + x + ".", PrintExp(b));
    case App(f, a) =>
      PrintBalanced(f);
      PrintBalanced(a);
      var pf, pa := Parenthesize(PrintExp(f), f.Lam?), Parenthesize(PrintExp(a), a.Lam? || a.App?);
      if f.Lam? { ParenthesizeBalanced(PrintExp(f), ' '); }
      if a.Lam? || a.App? { ParenthesizeBalanced(PrintExp(a), ' '); }
      IdBalanced("_");
      assert Balanced(" ") by {
        assert forall i | 0 <= i <= 1 :: Depth(" "[..i]) == 0;
      }
      BalancedConcat(pf, " ");
      BalancedConcat(pf + " ", pa);
  }

  /** Joining a balanced left part and a right part with one space: the right
      part's characters sit at the same depth as they did alone. */
  lemma JoinNested(l: string, r: string, c: char)
    requires Balanced(l) && Nested(l, c) && Nested(r, c) && c != ' '
    ensures Nested(l + " " + r, c)
  {
    var s := l + " " + r;
    assert s == (l + " ") + r;
    DepthConcat(l, " ");
    forall i | 0 <= i < |s| && s[i] == c
      ensures Depth(s[..i]) > 0
    {
      if i < |l| {
        assert s[..i] == l[..i];
      } else {
        assert i > |l|;
        PrefixOfConcat(l + " ", r, i);
        DepthConcat(l + " ", r[..i - |l| - 1]);
      }
    }
  }

  /** In a printed application every `λ` is inside parentheses: a lambda never
      stands bare in function or argument position. */
  lemma {:induction false} PrintAppNestsLambdas(e: Expr)
    requires e.App? && WellFormed(e)
    ensures Nested(PrintExp(e), Lambda)
  {
    var f, a := e.func, e.arg;
    PrintBalanced(f);
    PrintBalanced(a);
    var pf, pa := Parenthesize(PrintExp(f), f.Lam?), Parenthesize(PrintExp(a), a.Lam? || a.App?);
    match f {
      case Var(x) => IdBalanced(x);
      case Lam(_, _) => ParenthesizeBalanced(PrintExp(f), Lambda);
      case App(_, _) => PrintAppNestsLambdas(f);
    }
    if a.Var? {
      IdBalanced(a.id);
    } else {
      ParenthesizeBalanced(PrintExp(a), Lambda);
    }
    if f.Lam? { ParenthesizeBalanced(PrintExp(f), ' '); }
    JoinNested(pf, pa, Lambda);
  }

  /** Position `k`, strictly inside `s`, holds a space outside all parentheses,
      and every later space is inside some. */
  predicate LastTopLevelSpace(s: string, k: int) {
    && 0 < k < |s| - 1
    && s[k] == ' '
    && Depth(s[..k]) == 0
    && forall i :: k < i < |s| && s[i] == ' ' ==> Depth(s[..i]) > 0
  }

  /** The space joining function and argument is the last one outside
      parentheses: the argument is either a bare name or parenthesised. */
  lemma PrintAppSplit(f: Expr, a: Expr)
    requires WellFormed(App(f, a))
    ensures LastTopLevelSpace(PrintExp(App(f, a)), |Parenthesize(PrintExp(f), f.Lam?)|)
  {
    PrintBalanced(f);
    var pf, pa := Parenthesize(PrintExp(f), f.Lam?), Parenthesize(PrintExp(a), a.Lam? || a.App?);
    if f.Lam? { ParenthesizeBalanced(PrintExp(f), ' '); }
    if a.Var? {
      IdBalanced(a.id);
    } else {
      PrintBalanced(a);
      ParenthesizeBalanced(PrintExp(a), ' ');
    }
    PrintStarts(f);
    PrintStarts(a);
    JoinSplit(pf, pa);
  }

  /** A string has at most one last top-level space. */
  lemma LastTopLevelSpaceUnique(s: string, j: int, k: int)
    requires LastTopLevelSpace(s, j) && LastTopLevelSpace(s, k)
    ensures j == k
  {
  }

  /** Joining a balanced left part to a right part whose spaces are all nested:
      the joining space is the last one at top level. */
  lemma JoinSplit(l: string, r: string)
    requires Balanced(l) && |l| > 0 && |r| > 0 && Nested(r, ' ')
    ensures LastTopLevelSpace(l + " " + r, |l|)
  {
    var s := l + " " + r;
    var k := |l|;
    assert s == (l + " ") + r;
    assert s[..k] == l;
    DepthConcat(l, " ");
    forall i | k < i < |s| && s[i] == ' '
      ensures Depth(s[..i]) > 0
    {
      PrefixOfConcat(l + " ", r, i);
      DepthConcat(l + " ", r[..i - k - 1]);
      assert r[i - k - 1] == ' ';
    }
  }

  /** What a print starts with: `λ` exactly for a lambda, `(` exactly for an
      application whose head is a lambda. */
  lemma {:induction false} PrintStarts(e: Expr)
    requires WellFormed(e)
    ensures |PrintExp(e)| > 0
    ensures PrintExp(e)[0] == Lambda <==> e.Lam?
    ensures PrintExp(e)[0] == '(' <==> e.App? && Head(e).Lam?
  {
    match e
    case Var(x) => assert IdChar(x[0]);
    case Lam(_, _) =>
    case App(f, a) => PrintStarts(f);
  }

  /** A printed application ends in `)` exactly when its argument is not a variable. */
  lemma PrintAppEnds(f: Expr, a: Expr)
    requires WellFormed(App(f, a))
    ensures var s := PrintExp(App(f, a)); s[|s| - 1] == ')' <==> !a.Var?
  {
  }

  /** Exactly one space per application and one `λ` and one `.` per abstraction. */
  lemma PrintCounts(e: Expr)
    requires WellFormed(e)
    ensures Count(PrintExp(e), ' ') == CountApps(e)
    ensures Count(PrintExp(e), Lambda) == CountLams(e)
    ensures Count(PrintExp(e), '.') == CountLams(e)
  {
    PrintCount(e, ' ');
    PrintCount(e, Lambda);
    PrintCount(e, '.');
  }

  lemma {:induction false} PrintCount(e: Expr, c: char)
    requires WellFormed(e)
    requires c == ' ' || c == Lambda || c == '.'
    ensures Count(PrintExp(e), c) == if c == ' ' then CountApps(e) else CountLams(e)
  {
    match e
    case Var(x) => IdCounts(x);
    case Lam(x, b) =>
      PrintCount(b, c);
      IdCounts(x);
      LamCount(x, PrintExp(b), c);
    case App(f, a) =>
      PrintCount(f, c);
      PrintCount(a, c);
      AppCount(PrintExp(f), f.Lam?, PrintExp(a), a.Lam? || a.App?, c);
  }

  lemma LamCount(x: string, pb: string, c: char)
    ensures Count([Lambda] + x + "." + pb, c) ==
      (if c == Lambda then 1 else 0) + Count(x, c) + (if c == '.' then 1 else 0) + Count(pb, c)
  {
    assert [Lambda] + x + "." + pb == [Lambda] + (x + (['.'] + pb));
    CountConcat([Lambda], x + (['.'] + pb), c);
    CountConcat(x, ['.'] + pb, c);
    CountConcat(['.'], pb, c);
    CountSingle(Lambda, c);
    CountSingle('.', c);
  }

  lemma AppCount(pf: string, wf: bool, pa: string, wa: bool, c: char)
    requires c != '(' && c != ')'
    ensures Count(Parenthesize(pf, wf) + " " + Parenthesize(pa, wa), c) ==
      Count(pf, c) + (if c == ' ' then 1 else 0) + Count(pa, c)
  {
    var l, r := Parenthesize(pf, wf), Parenthesize(pa, wa);
    ParenthesizeCount(pf, wf, c);
    ParenthesizeCount(pa, wa, c);
    assert l + " " + r == l + ([' '] + r);
    CountConcat(l, [' '] + r, c);
    CountConcat([' '], r, c);
    CountSingle(' ', c);
  }

  lemma ParenthesizeCount(s: string, wrap: bool, c: char)
    requires c != '(' && c != ')'
    ensures Count(Parenthesize(s, wrap), c) == Count(s, c)
  {
    if wrap {
      assert "(" + s + ")" == "(" + (s + ")");
      CountConcat("(", s + ")", c);
      CountConcat(s, ")", c);
    }
  }

  /** The text is one parenthesised group: it opens with `(`, and that
      parenthesis closes only at its end. */
  predicate Group(w: string) {
    |w| > 0 && w[0] == '(' && Enclosed(w)
  }

  /** The parenthesisation rules, read off the printed text: split at its last
      top-level space, the function part is one parenthesised group exactly
      when the function is a lambda, and the argument part exactly when the
      argument is a lambda or an application. */
  lemma PrintAppParens(f: Expr, a: Expr)
    requires WellFormed(App(f, a))
    ensures var s := PrintExp(App(f, a));
      forall k :: LastTopLevelSpace(s, k) ==>
        && (Group(s[..k]) <==> f.Lam?)
        && (Group(s[k + 1..]) <==> a.Lam? || a.App?)
  {
    var s := PrintExp(App(f, a));
    var l := Parenthesize(PrintExp(f), f.Lam?);
    PrintAppSplit(f, a);
    forall k | LastTopLevelSpace(s, k)
      ensures Group(s[..k]) <==> f.Lam?
      ensures Group(s[k + 1..]) <==> a.Lam? || a.App?
    {
      LastTopLevelSpaceUnique(s, k, |l|);
      AppCut(f, a);
      FunctionGroup(f);
      ArgumentGroup(a);
    }
  }

  /** Cut at the end of the function part, a printed application falls apart
      into that part and the argument part. */
  lemma AppCut(f: Expr, a: Expr)
    ensures var s, l := PrintExp(App(f, a)), Parenthesize(PrintExp(f), f.Lam?);
      && |l| < |s|
      && s[..|l|] == l
      && s[|l| + 1..] == Parenthesize(PrintExp(a), a.Lam? || a.App?)
  {
    var l, r := Parenthesize(PrintExp(f), f.Lam?), Parenthesize(PrintExp(a), a.Lam? || a.App?);
    var s := l + " " + r;
    assert PrintExp(App(f, a)) == s;
    assert s[..|l|] == l;
    assert s[|l| + 1..] == r;
  }

  /** An argument prints, in argument position, as one group exactly when it
      is a lambda or an application. */
  lemma ArgumentGroup(a: Expr)
    requires WellFormed(a)
    ensures Group(Parenthesize(PrintExp(a), a.Lam? || a.App?)) <==> a.Lam? || a.App?
  {
    if a.Var? {
      assert IdChar(a.id[0]);
    } else {
      PrintBalanced(a);
      ParenthesizeBalanced(PrintExp(a), ' ');
    }
  }

  /** A function prints, in function position, as one group exactly when it is a lambda. */
  lemma FunctionGroup(f: Expr)
    requires WellFormed(f)
    ensures Group(Parenthesize(PrintExp(f), f.Lam?)) <==> f.Lam?
  {
    match f
    case Var(x) =>
      assert IdChar(x[0]);
    case Lam(_, _) =>
      PrintBalanced(f);
      ParenthesizeBalanced(PrintExp(f), ' ');
    case App(g, a) =>
      PrintAppSplit(g, a);
      var k := |Parenthesize(PrintExp(g), g.Lam?)|;
      assert Depth(PrintExp(f)[..k]) == 0;
  }

  /** Printing is injective on well-formed terms: the parentheses the printer
      writes determine the term, so no two terms print alike. */
  lemma {:induction false} PrintInjective(e1: Expr, e2: Expr)
    requires WellFormed(e1) && WellFormed(e2)
    requires PrintExp(e1) == PrintExp(e2)
    ensures e1 == e2
    decreases Size(e1)
  {
    PrintStarts(e1);
    PrintStarts(e2);
    PrintNameIff(e1);
    PrintNameIff(e2);
    match e1
    case Var(_) =>
    case Lam(x1, b1) =>
      SplitAtDot(x1, PrintExp(b1), e2.id, PrintExp(e2.body));
      PrintInjective(b1, e2.body);
    case App(f1, a1) =>
      AppParts(f1, a1, e2.func, e2.arg);
      PrintInjective(f1, e2.func);
      PrintInjective(a1, e2.arg);
  }

  /** A print is a bare identifier exactly when the term is a name: a lambda
      starts with `λ` and an application holds a space. */
  lemma PrintNameIff(e: Expr)
    requires WellFormed(e)
    ensures e.Var? <==> ValidId(PrintExp(e))
  {
    match e
    case Var(_) =>
    case Lam(_, _) =>
      assert PrintExp(e)[0] == Lambda;
    case App(f, a) =>
      PrintAppSplit(f, a);
      var k := |Parenthesize(PrintExp(f), f.Lam?)|;
      assert PrintExp(e)[k] == ' ';
  }

  /** Equal prints of two applications have equal function prints and equal
      argument prints: both split at their last top-level space. */
  lemma AppParts(f1: Expr, a1: Expr, f2: Expr, a2: Expr)
    requires WellFormed(App(f1, a1)) && WellFormed(App(f2, a2))
    requires PrintExp(App(f1, a1)) == PrintExp(App(f2, a2))
    ensures PrintExp(f1) == PrintExp(f2) && PrintExp(a1) == PrintExp(a2)
  {
    var s := PrintExp(App(f1, a1));
    var l1, l2 := Parenthesize(PrintExp(f1), f1.Lam?), Parenthesize(PrintExp(f2), f2.Lam?);
    var r1, r2 := Parenthesize(PrintExp(a1), a1.Lam? || a1.App?), Parenthesize(PrintExp(a2), a2.Lam? || a2.App?);
    PrintAppSplit(f1, a1);
    PrintAppSplit(f2, a2);
    LastTopLevelSpaceUnique(s, |l1|, |l2|);
    JoinCancel(l1, r1, l2, r2);
    FunctionText(f1, f2);
    ArgumentText(a1, a2);
  }

  /** Two joins split at the same place have equal halves. */
  lemma JoinCancel(l1: string, r1: string, l2: string, r2: string)
    requires l1 + " " + r1 == l2 + " " + r2 && |l1| == |l2|
    ensures l1 == l2 && r1 == r2
  {
    var s := l1 + " " + r1;
    assert l1 == s[..|l1|] == l2;
    assert r1 == s[|l1| + 1..] == r2;
  }

  /** The first `.` of a printed lambda is the one after its binder. */
  lemma DotAfterBinder(x: string, p: string)
    requires ValidId(x)
    ensures ([Lambda] + x + "." + p)[|x| + 1] == '.'
    ensures forall i :: 0 < i <= |x| ==> ([Lambda] + x + "." + p)[i] != '.'
  {
    forall i | 0 < i <= |x|
      ensures ([Lambda] + x + "." + p)[i] != '.'
    {
      assert ([Lambda] + x + "." + p)[i] == x[i - 1];
      assert IdChar(x[i - 1]);
    }
  }

  /** The binder of a printed lambda ends at the first `.`. */
  lemma SplitAtDot(x1: string, p1: string, x2: string, p2: string)
    requires ValidId(x1) && ValidId(x2)
    requires [Lambda] + x1 + "." + p1 == [Lambda] + x2 + "." + p2
    ensures x1 == x2 && p1 == p2
  {
    var s := [Lambda] + x1 + "." + p1;
    DotAfterBinder(x1, p1);
    DotAfterBinder(x2, p2);
    assert |x1| == |x2|;
    assert x1 == s[1..|x1| + 1] == x2;
    assert p1 == s[|x1| + 2..] == p2;
  }

  /** The function part of a printed application determines the function's
      own print: a parenthesised lambda never reads as a bare application. */
  lemma FunctionText(f1: Expr, f2: Expr)
    requires WellFormed(f1) && WellFormed(f2)
    requires Parenthesize(PrintExp(f1), f1.Lam?) == Parenthesize(PrintExp(f2), f2.Lam?)
    ensures PrintExp(f1) == PrintExp(f2)
  {
    if f1.Lam? && !f2.Lam? {
      WrappedLambdaNotBare(f1, f2);
    } else if f2.Lam? && !f1.Lam? {
      WrappedLambdaNotBare(f2, f1);
    } else if f1.Lam? {
      Unwrap(PrintExp(f1), PrintExp(f2));
    }
  }

  lemma WrappedLambdaNotBare(f: Expr, g: Expr)
    requires WellFormed(f) && WellFormed(g) && f.Lam? && !g.Lam?
    ensures "(" + PrintExp(f) + ")" != PrintExp(g)
  {
    if "(" + PrintExp(f) + ")" == PrintExp(g) {
      PrintStarts(g);
      PrintBalanced(f);
      ParenthesizeBalanced(PrintExp(f), ' ');
      PrintAppSplit(g.func, g.arg);
      assert false;
    }
  }

  /** The argument part of a printed application determines the argument's
      own print: a bare name never starts with `(`. */
  lemma ArgumentText(a1: Expr, a2: Expr)
    requires WellFormed(a1) && WellFormed(a2)
    requires Parenthesize(PrintExp(a1), a1.Lam? || a1.App?) == Parenthesize(PrintExp(a2), a2.Lam? || a2.App?)
    ensures PrintExp(a1) == PrintExp(a2)
  {
    ArgumentStart(a1);
    ArgumentStart(a2);
    if !a1.Var? {
      Unwrap(PrintExp(a1), PrintExp(a2));
    }
  }

  /** An argument is printed starting with `(` exactly when it is not a name. */
  lemma ArgumentStart(a: Expr)
    requires WellFormed(a)
    ensures Parenthesize(PrintExp(a), a.Lam? || a.App?)[0] == '(' <==> !a.Var?
  {
    if a.Var? {
      assert IdChar(a.id[0]);
    }
  }

  lemma Unwrap(p1: string, p2: string)
    requires "(" + p1 + ")" == "(" + p2 + ")"
    ensures p1 == p2
  {
    assert p1 == ("(" + p1 + ")")[1..|p1| + 1];
  }
}
