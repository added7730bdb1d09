/** What the Yices translator produces: which expressions it accepts, and the shape of
    each operator rewrite stated against the reference shapes of module Terms. */
module TranslatorFacts {
  import opened Wrappers
  import opened Syntax
  import opened Text
  import opened Terms
  import opened Translator

  // ---------------------------------------------------------------------------------
  // Which expressions translate

  lemma {:induction false} ArgumentsOk(args: seq<Expr>, k: nat)
    requires k <= |args|
    ensures Arguments(args, k).Ok? <==> forall i | 0 <= i < k :: Translate(args[i]).Ok?
    decreases k
  {
    if k > 0 {
      ArgumentsOk(args, k - 1);
      assert Arguments(args, k).Ok? <==> Arguments(args, k - 1).Ok? && Translate(args[k - 1]).Ok?;
    }
  }

  lemma {:induction false} ChainPairsOk(op: string, args: seq<Expr>, k: nat)
    requires k <= |args|
    ensures ChainPairs(op, args, k).Ok? <==> k <= 1 || forall i | 0 <= i < k :: Translate(args[i]).Ok?
    decreases k
  {
    if k > 1 {
      ChainPairsOk(op, args, k - 1);
    }
  }

  lemma {:induction false} LeftAssocOk(op: string, args: seq<Expr>, k: nat)
    requires 1 <= k <= |args|
    ensures LeftAssoc(op, args, k).Ok? <==> forall i | 0 <= i < k :: Translate(args[i]).Ok?
    decreases k
  {
    if k > 1 {
      LeftAssocOk(op, args, k - 1);
    }
  }

  lemma {:induction false} RightAssocOk(op: string, args: seq<Expr>, i: nat)
    requires i < |args|
    ensures RightAssoc(op, args, i).Ok? <==> forall j | i <= j < |args| :: Translate(args[j]).Ok?
    decreases |args| - i
  {
    if i < |args| - 1 {
      RightAssocOk(op, args, i + 1);
    }
  }

  lemma {:induction false} DistinctRowOk(args: seq<Expr>, j: nat, k: nat)
    requires k <= j < |args|
    ensures DistinctRow(args, j, k).Ok? <==>
      k == 0 || (Translate(args[j]).Ok? && forall i | 0 <= i < k :: Translate(args[i]).Ok?)
    decreases k
  {
    if k > 0 {
      DistinctRowOk(args, j, k - 1);
      assert DistinctRow(args, j, k).Ok? <==>
        DistinctRow(args, j, k - 1).Ok? && Translate(args[j]).Ok? && Translate(args[k - 1]).Ok?;
    }
  }

  lemma {:induction false} DistinctPairsUpToOk(args: seq<Expr>, j: nat)
    requires j <= |args|
    ensures DistinctPairsUpTo(args, j).Ok? <==> j <= 1 || forall i | 0 <= i < j :: Translate(args[i]).Ok?
    decreases j
  {
    if j > 0 {
      DistinctPairsUpToOk(args, j - 1);
      DistinctRowOk(args, j - 1, j - 1);
    }
  }

  lemma {:induction false} DeclarationsOk(ds: seq<Declaration>, k: nat)
    requires k <= |ds|
    ensures Declarations(ds, k).Ok? <==> forall i | 0 <= i < k :: SortSupported(ds[i].sort)
    decreases k
  {
    if k > 0 {
      DeclarationsOk(ds, k - 1);
    }
  }

  lemma {:induction false} BindingsOk(bs: seq<Binding>, k: nat)
    requires k <= |bs|
    ensures Bindings(bs, k).Ok? <==> forall i | 0 <= i < k :: Translate(bs[i].expr).Ok?
    decreases k
  {
    if k > 0 {
      BindingsOk(bs, k - 1);
    }
  }

  /** An application translates exactly when its arguments do, except that a chainable
      operator or `distinct` with a single argument never translates it. */
  lemma TranslateAppOk(f: string, args: seq<Expr>)
    requires |args| > 0
    ensures TranslateApp(f, args).Ok? <==>
      IgnoresSoleArgument(f, |args|) || forall i | 0 <= i < |args| :: Translate(args[i]).Ok?
  {
    ArgumentsOk(args, |args|);
    if |args| >= 2 {
      ArgumentsOk(args, 2);
    }
    ChainPairsOk(f, args, |args|);
    LeftAssocOk("/=", args, |args|);
    RightAssocOk("=>", args, 0);
    DistinctPairsUpToOk(args, |args|);
  }

  /** Translation succeeds exactly on the supported expressions: it fails, producing no
      text at all, as soon as the expression holds a decimal, string, binary or hex
      literal, a keyword, an error node, an application without arguments, an indexed or
      `as` identifier or an unsupported sort somewhere translation reaches. */
  lemma {:induction false} TranslateSucceedsIffSupported(e: Expr)
    ensures Translate(e).Ok? <==> Supported(e)
    decreases e
  {
    match e
    case App(head, args, p) =>
      forall i | 0 <= i < |args|
        ensures Translate(args[i]).Ok? <==> Supported(args[i])
      {
        TranslateSucceedsIffSupported(args[i]);
      }
      if |args| > 0 && head.Symbol? {
        TranslateAppOk(head.name, args);
      }
    case Forall(ds, body, _) =>
      DeclarationsOk(ds, |ds|);
      TranslateSucceedsIffSupported(body);
    case Exists(ds, body, _) =>
      DeclarationsOk(ds, |ds|);
      TranslateSucceedsIffSupported(body);
    case Let(bs, body, _) =>
      forall i | 0 <= i < |bs|
        ensures Translate(bs[i].expr).Ok? <==> Supported(bs[i].expr)
      {
        TranslateSucceedsIffSupported(bs[i].expr);
      }
      BindingsOk(bs, |bs|);
      TranslateSucceedsIffSupported(body);
    case Attributed(inner, _, _) =>
      TranslateSucceedsIffSupported(inner);
    case _ =>
  }

  // ---------------------------------------------------------------------------------
  // What the loops produce once every argument translates

  /** `ts` holds the translations of `args`, in order. */
  predicate Translates(args: seq<Expr>, ts: seq<string>) {
    |ts| == |args| && forall i | 0 <= i < |args| :: Translate(args[i]) == Ok(ts[i])
  }

  lemma {:induction false} ArgumentsValue(args: seq<Expr>, ts: seq<string>, k: nat)
    requires Translates(args, ts) && k <= |args|
    ensures Arguments(args, k) == Ok(Concat(Spaced(ts[..k])))
    decreases k
  {
    if k > 0 {
      ArgumentsValue(args, ts, k - 1);
      var sp := Spaced(ts[..k]);
      assert sp[..k - 1] == Spaced(ts[..k - 1]);
      assert Concat(sp) == Concat(sp[..k - 1]) + sp[k - 1];
      assert Translate(args[k - 1]) == Ok(ts[k - 1]);

    }
  }

  lemma {:induction false} ChainPairsValue(op: string, args: seq<Expr>, ts: seq<string>, k: nat)
    requires Translates(args, ts) && k <= |args|
    ensures ChainPairs(op, args, k) == Ok(Concat(ChainTerms(op, ts[..k])))
    decreases k
  {
    if k > 1 {
      ChainPairsValue(op, args, ts, k - 1);
      ChainTermsStep(op, ts, k);
      var cs := ChainTerms(op, ts[..k]);
      assert cs[..k - 2] == ChainTerms(op, ts[..k - 1]);
      assert Concat(cs) == Concat(cs[..k - 2]) + cs[k - 2];
      assert Translate(args[k - 2]) == Ok(ts[k - 2]);
      assert Translate(args[k - 1]) == Ok(ts[k - 1]);

    }
  }

  lemma {:induction false} LeftAssocValue(op: string, args: seq<Expr>, ts: seq<string>, k: nat, t: Term)
    requires Translates(args, ts) && 1 <= k <= |args|
    requires LeftComb(t, op) && Frontier(t) == ts[..k]
    ensures LeftAssoc(op, args, k) == Ok(Render(t))
    decreases t
  {
    match t
    case Atom(_) =>
    case Apply(_, l, r) =>
      ApplicationsCount(l);
      assert Frontier(l) == ts[..k - 1] by {
        assert ts[..k - 1] == ts[..k][..k - 1];
      }
      LeftAssocValue(op, args, ts, k - 1, l);
  }

  lemma {:induction false} RightAssocValue(op: string, args: seq<Expr>, ts: seq<string>, i: nat, t: Term)
    requires Translates(args, ts) && i < |args|
    requires RightComb(t, op) && Frontier(t) == ts[i..]
    ensures RightAssoc(op, args, i) == Ok(Render(t))
    decreases t
  {
    match t
    case Atom(_) =>
    case Apply(_, l, r) =>
      ApplicationsCount(r);
      assert Frontier(r) == ts[i + 1..] by {
        assert ts[i + 1..] == ts[i..][1..];
      }
      RightAssocValue(op, args, ts, i + 1, r);
  }

  /** The text of one inequality term as the `distinct` loop writes it. */
  lemma InequalityText(a: string, b: string)
    ensures " " + Render(Apply("/=", Atom(a), Atom(b))) == " (/= " + a + " " + b + ")"
  {
    assert " " + "(" + "/=" + " " == " (/= ";
  }

  /** The inequality text of row j over its first k partners, built term by term as the
      inner loop builds it. */
  function RowText(xs: seq<string>, j: nat, k: nat): string
    requires k <= j < |xs|
  {
    if k == 0 then "" else RowText(xs, j, k - 1) + (" " + Render(Apply("/=", Atom(xs[j]), Atom(xs[k - 1]))))
  }

  lemma {:induction false} DistinctRowValue(args: seq<Expr>, ts: seq<string>, j: nat, k: nat)
    requires Translates(args, ts) && k <= j < |args|
    ensures DistinctRow(args, j, k) == Ok(RowText(ts, j, k))
    decreases k
  {
    if k > 0 {
      DistinctRowValue(args, ts, j, k - 1);
      assert Translate(args[j]) == Ok(ts[j]);
      assert Translate(args[k - 1]) == Ok(ts[k - 1]);
      InequalityText(ts[j], ts[k - 1]);
    }
  }

  /** Term by term, the row's text is that of the reference row. */
  lemma {:induction false} RowTextValue(ts: seq<string>, j: nat, k: nat)
    requires k <= j < |ts|
    ensures RowText(ts, j, k) == Concat(InequalityTerms(ts, Row(j, k)))
    decreases k
  {
    if k > 0 {
      RowTextValue(ts, j, k - 1);
      var qs := InequalityTerms(ts, Row(j, k));
      assert qs[..k - 1] == InequalityTerms(ts, Row(j, k - 1));
      assert Concat(qs) == Concat(qs[..k - 1]) + qs[k - 1];
    }
  }

  /** The inequality text over the first k operands, built row by row as the pairwise
      loop builds it. */
  function PairsText(xs: seq<string>, k: nat): string
    requires k <= |xs|
  {
    if k == 0 then "" else PairsText(xs, k - 1) + Concat(InequalityTerms(xs, Row(k - 1, k - 1)))
  }

  /** The outer loop appends the rows in order; it needs only what each row yields. */
  lemma {:induction false} DistinctPairsUpToValue(args: seq<Expr>, ts: seq<string>, j: nat)
    requires |ts| == |args| && j <= |args|
    requires forall k | 0 <= k < j :: DistinctRow(args, k, k) == Ok(Concat(InequalityTerms(ts, Row(k, k))))
    ensures DistinctPairsUpTo(args, j) == Ok(PairsText(ts, j))
    decreases j
  {
    if j > 0 {
      DistinctPairsUpToValue(args, ts, j - 1);
      assert DistinctRow(args, j - 1, j - 1) == Ok(Concat(InequalityTerms(ts, Row(j - 1, j - 1))));
    }
  }

  /** Every row of the pairwise loop yields the text of its reference row. */
  lemma RowsValue(args: seq<Expr>, ts: seq<string>)
    requires Translates(args, ts)
    ensures forall k | 0 <= k < |args| :: DistinctRow(args, k, k) == Ok(Concat(InequalityTerms(ts, Row(k, k))))
  {
    forall k | 0 <= k < |args|
      ensures DistinctRow(args, k, k) == Ok(Concat(InequalityTerms(ts, Row(k, k))))
    {
      DistinctRowValue(args, ts, k, k);
      RowTextValue(ts, k, k);
    }
  }

  /** Row by row, the text is that of the reference pair list. */
  lemma {:induction false} PairsTextValue(ts: seq<string>, j: nat)
    requires j <= |ts|
    ensures PairsBelow(DistinctPairs(j), j)
    ensures PairsText(ts, j) == Concat(InequalityTerms(ts, DistinctPairs(j)))
    decreases j
  {
    DistinctPairsComplete(j);
    if j > 0 {
      PairsTextValue(ts, j - 1);
      PairsConcatSplit(ts, j, DistinctPairs(j - 1));
    }
  }

  /** The inequality text of the first j arguments' pairs is that of the first j - 1
      arguments' pairs followed by the row of argument j - 1. */
  lemma PairsConcatSplit(ts: seq<string>, j: nat, prev: seq<(nat, nat)>)
    requires 0 < j <= |ts| && prev == DistinctPairs(j - 1)
    requires PairsBelow(prev, j - 1)
    ensures PairsBelow(DistinctPairs(j), j)
    ensures Concat(InequalityTerms(ts, DistinctPairs(j))) ==
      Concat(InequalityTerms(ts, prev)) + Concat(InequalityTerms(ts, Row(j - 1, j - 1)))
  {
    DistinctPairsComplete(j);
    var row := Row(j - 1, j - 1);
    assert DistinctPairs(j) == prev + row;
    InequalityTermsAppend(ts, prev, row);
    ConcatAppend(InequalityTerms(ts, prev), InequalityTerms(ts, row));
  }

  lemma {:induction false} DeclarationsValue(ds: seq<Declaration>, ss: seq<string>, k: nat)
    requires |ss| == |ds| && forall i | 0 <= i < |ds| :: TranslateSort(ds[i].sort) == Ok(ss[i])
    requires k <= |ds|
    ensures Declarations(ds, k) == Ok(Concat(BinderTexts(ds[..k], ss[..k])))
    decreases k
  {
    if k > 0 {
      DeclarationsValue(ds, ss, k - 1);
      var bt := BinderTexts(ds[..k], ss[..k]);
      assert bt[..k - 1] == BinderTexts(ds[..k - 1], ss[..k - 1]);
      assert Concat(bt) == Concat(bt[..k - 1]) + bt[k - 1];
    }
  }

  lemma {:induction false} BindingsValue(bs: seq<Binding>, vs: seq<string>, k: nat)
    requires |vs| == |bs| && forall i | 0 <= i < |bs| :: Translate(bs[i].expr) == Ok(vs[i])
    requires k <= |bs|
    ensures Bindings(bs, k) == Ok(Concat(BindingTexts(bs[..k], vs[..k])))
    decreases k
  {
    if k > 0 {
      BindingsValue(bs, vs, k - 1);
      var bt := BindingTexts(bs[..k], vs[..k]);
      assert bt[..k - 1] == BindingTexts(bs[..k - 1], vs[..k - 1]);
      assert Concat(bt) == Concat(bt[..k - 1]) + bt[k - 1];
    }
  }

  /** `x::S ` for each quantifier parameter, in declaration order. */
  function BinderTexts(ds: seq<Declaration>, ss: seq<string>): (r: seq<string>)
    requires |ss| == |ds|
    ensures |r| == |ds|
  {
    seq(|ds|, i requires 0 <= i < |ds| => ds[i].parameter + "::" + ss[i] + " ")
  }

  /** `(x e)` for each let binding, in binding order. */
  function BindingTexts(bs: seq<Binding>, vs: seq<string>): (r: seq<string>)
    requires |vs| == |bs|
    ensures |r| == |bs|
  {
    seq(|bs|, i requires 0 <= i < |bs| => "(" + bs[i].parameter + " " + vs[i] + ")")
  }

  // ---------------------------------------------------------------------------------
  // The operator rewrites

  // One unfolding of the translator per rewrite, kept apart from the theorems below so
  // that each of those reasons about the loop's text only.

  lemma NaryText(op: string, hp: Position, args: seq<Expr>, p: Position, s: string)
    requires |args| >= 1 && RewriteOf(op, |args|) == KeepNary && Arguments(args, |args|) == Ok(s)
    ensures Translate(App(Symbol(op, hp), args, p)) == Ok("( " + op + s + " )")
  {
  }

  lemma ChainText(op: string, hp: Position, args: seq<Expr>, p: Position, s: string)
    requires IsChainable(op) && |args| >= 1 && ChainPairs(op, args, |args|) == Ok(s)
    ensures Translate(App(Symbol(op, hp), args, p)) == Ok("(and " + s + ")")
  {
    assert RewriteOf(op, |args|) == Chain;
  }

  lemma PairwiseText(hp: Position, args: seq<Expr>, p: Position, s: string)
    requires |args| >= 1 && |args| != 2 && DistinctPairsUpTo(args, |args|) == Ok(s)
    ensures Translate(App(Symbol("distinct", hp), args, p)) == Ok("(and" + s + ")")
  {
    assert RewriteOf("distinct", |args|) == Pairwise;
  }

  /** Operators without a rewrite, `or` and `and` included, keep their arguments in one
      application `( op a1 ... ak )`. */
  lemma NaryRendering(op: string, hp: Position, args: seq<Expr>, p: Position, ts: seq<string>)
    requires |args| >= 1 && Translates(args, ts)
    requires !IsChainable(op) && op != "xor" && op != "=>" && op != "distinct"
    requires !(|args| == 1 && op == "-")
    ensures Translate(App(Symbol(op, hp), args, p)) == Ok("( " + op + " " + Join(" ", ts) + " )")
  {
    ArgumentsValue(args, ts, |args|);
    assert ts[..|args|] == ts;
    SpacedIsJoin(ts);
    var j := Join(" ", ts);
    NaryText(op, hp, args, p, " " + j);
    assert "( " + op + (" " + j) + " )" == "( " + op + " " + j + " )";
  }

  /** A chainable comparison over k >= 2 arguments becomes the conjunction of its k - 1
      adjacent pairs, in argument order, neighbouring pairs sharing their middle argument. */
  lemma ChainableExpands(op: string, hp: Position, args: seq<Expr>, p: Position, ts: seq<string>)
    requires IsChainable(op) && |args| >= 2 && Translates(args, ts)
    ensures Translate(App(Symbol(op, hp), args, p)) == Ok("(and " + Concat(ChainTerms(op, ts)) + ")")
    ensures |ChainTerms(op, ts)| == |args| - 1
    ensures forall i | 0 <= i < |args| - 1 ::
      ChainTerms(op, ts)[i] == Render(Apply(op, Atom(ts[i]), Atom(ts[i + 1])))
  {
    ChainableValue(op, hp, args, p, ts);
    ChainTermsElements(op, ts);
  }

  lemma ChainableValue(op: string, hp: Position, args: seq<Expr>, p: Position, ts: seq<string>)
    requires IsChainable(op) && |args| >= 2 && Translates(args, ts)
    ensures Translate(App(Symbol(op, hp), args, p)) == Ok("(and " + Concat(ChainTerms(op, ts)) + ")")
  {
    ChainPairsValue(op, args, ts, |args|);
    assert ts[..|args|] == ts;
    ChainText(op, hp, args, p, Concat(ChainTerms(op, ts)));
  }

  /** A chainable comparison or `distinct` with one argument renders as an empty
      conjunction without translating the argument, even one that cannot be translated. */
  lemma SoleArgumentIgnored(op: string, hp: Position, a: Expr, p: Position)
    requires IgnoresSoleArgument(op, 1)
    ensures Translate(App(Symbol(op, hp), [a], p)) == Ok(if op == "distinct" then "(and)" else "(and )")
  {
    if op == "distinct" {
      assert DistinctRow([a], 0, 0) == Ok("");
      assert DistinctPairsUpTo([a], 0) == Ok("");
      assert DistinctPairsUpTo([a], 1) == Ok("" + "");
      PairwiseText(hp, [a], p, "" + "");
      assert "(and" + ("" + "") + ")" == "(and)";
    } else {
      assert ChainPairs(op, [a], 1) == Ok("");
      ChainText(op, hp, [a], p, "");
      assert "(and " + "" + ")" == "(and )";
    }
  }

  /** `xor` over k arguments is the left-nested `/=` term over their translations, with
      k - 1 applications; a single argument is rendered alone. */
  lemma XorNestsLeft(hp: Position, args: seq<Expr>, p: Position, ts: seq<string>, t: Term)
    requires |args| >= 1 && Translates(args, ts)
    requires LeftComb(t, "/=") && Frontier(t) == ts
    ensures Translate(App(Symbol("xor", hp), args, p)) == Ok(Render(t))
    ensures Applications(t) == |args| - 1
  {
    assert ts[..|args|] == ts;
    LeftAssocValue("/=", args, ts, |args|, t);
    ApplicationsCount(t);
  }

  /** `=>` over k arguments is the right-nested `=>` term over their translations, with
      k - 1 applications; a single argument is rendered alone. */
  lemma ImpliesNestsRight(hp: Position, args: seq<Expr>, p: Position, ts: seq<string>, t: Term)
    requires |args| >= 1 && Translates(args, ts)
    requires RightComb(t, "=>") && Frontier(t) == ts
    ensures Translate(App(Symbol("=>", hp), args, p)) == Ok(Render(t))
    ensures Applications(t) == |args| - 1
  {
    assert ts[0..] == ts;
    RightAssocValue("=>", args, ts, 0, t);
    ApplicationsCount(t);
  }

  /** `distinct` over two arguments is one inequality. */
  lemma DistinctOfTwo(hp: Position, args: seq<Expr>, p: Position, ts: seq<string>)
    requires |args| == 2 && Translates(args, ts)
    ensures Translate(App(Symbol("distinct", hp), args, p)) == Ok(Render(Apply("/=", Atom(ts[0]), Atom(ts[1]))))
  {
    var s := " " + ts[0] + (" " + ts[1]);
    TwoArguments(args, ts);
    InequalityAppText(hp, args, p, s);
    assert "(/=" + s + ")" == "(" + "/=" + " " + ts[0] + " " + ts[1] + ")";
  }

  lemma TwoArguments(args: seq<Expr>, ts: seq<string>)
    requires |args| == 2 && Translates(args, ts)
    ensures Arguments(args, 2) == Ok(" " + ts[0] + (" " + ts[1]))
  {
    assert Translate(args[0]) == Ok(ts[0]);
    assert Translate(args[1]) == Ok(ts[1]);
    assert Arguments(args, 1) == Ok("" + (" " + ts[0]));
    assert "" + (" " + ts[0]) == " " + ts[0];
  }

  lemma InequalityAppText(hp: Position, args: seq<Expr>, p: Position, s: string)
    requires |args| == 2 && Arguments(args, 2) == Ok(s)
    ensures Translate(App(Symbol("distinct", hp), args, p)) == Ok("(/=" + s + ")")
  {
    assert RewriteOf("distinct", 2) == Inequality;
  }

  /** `distinct` over k >= 3 arguments is the conjunction of one inequality `(/= aj ai)` per
      entry of the reference pair list, which `Terms.DistinctPairsComplete` shows holds each
      unordered pair i < j exactly once. */
  lemma DistinctOfMany(hp: Position, args: seq<Expr>, p: Position, ts: seq<string>)
    requires |args| >= 3 && Translates(args, ts)
    ensures PairsBelow(DistinctPairs(|args|), |args|)
    ensures Translate(App(Symbol("distinct", hp), args, p)) ==
      Ok("(and" + Concat(InequalityTerms(ts, DistinctPairs(|args|))) + ")")
  {
    DistinctManyText(hp, args, p, ts);
    PairsTextValue(ts, |args|);
  }

  lemma DistinctManyText(hp: Position, args: seq<Expr>, p: Position, ts: seq<string>)
    requires |args| >= 3 && Translates(args, ts)
    ensures Translate(App(Symbol("distinct", hp), args, p)) == Ok("(and" + PairsText(ts, |args|) + ")")
  {
    RowsValue(args, ts);
    DistinctPairsUpToValue(args, ts, |args|);
    PairwiseText(hp, args, p, PairsText(ts, |args|));
  }

  /** Unary minus, which Yices lacks, becomes a subtraction from zero. */
  lemma UnaryMinus(hp: Position, a: Expr, p: Position, t: string)
    requires Translate(a) == Ok(t)
    ensures Translate(App(Symbol("-", hp), [a], p)) == Ok("(- 0 " + t + " )")
  {
  }

  /** Quantifiers list their parameters as `x::S ` in declaration order before the body. */
  lemma QuantifierBinders(ds: seq<Declaration>, ss: seq<string>, body: Expr, b: string, p: Position)
    requires |ss| == |ds| && forall i | 0 <= i < |ds| :: TranslateSort(ds[i].sort) == Ok(ss[i])
    requires Translate(body) == Ok(b)
    ensures Translate(Forall(ds, body, p)) == Ok("(forall (" + Concat(BinderTexts(ds, ss)) + ") " + b + ")")
    ensures Translate(Exists(ds, body, p)) == Ok("(exists (" + Concat(BinderTexts(ds, ss)) + ") " + b + ")")
  {
    DeclarationsValue(ds, ss, |ds|);
    assert ds[..|ds|] == ds && ss[..|ds|] == ss;
  }

  /** `let` lists its bindings as `(x e)` in binding order before the body. */
  lemma LetBindings(bs: seq<Binding>, vs: seq<string>, body: Expr, b: string, p: Position)
    requires |vs| == |bs| && forall i | 0 <= i < |bs| :: Translate(bs[i].expr) == Ok(vs[i])
    requires Translate(body) == Ok(b)
    ensures Translate(Let(bs, body, p)) == Ok("(let (" + Concat(BindingTexts(bs, vs)) + ") " + b + ")")
  {
    BindingsValue(bs, vs, |bs|);
    assert bs[..|bs|] == bs && vs[..|bs|] == vs;
  }

  /** A numeral renders as the decimal digits of its value, without a leading zero. */
  lemma NumeralRendering(v: nat, p: Position)
    ensures Translate(Numeral(v, p)).Ok?
    ensures DigitsValue(Translate(Numeral(v, p)).value) == v
    ensures Translate(Numeral(v, p)).value[0] == '0' ==> Translate(Numeral(v, p)).value == "0"
  {
    NatToStringRoundTrip(v);
  }

  /** An attributed expression renders as the expression it wraps, its attributes dropped. */
  lemma AttributesDropped(x: Expr, attributes: seq<string>, q: Position)
    ensures Translate(Attributed(x, attributes, q)) == Translate(x)
  {
  }

  /** Unary minus is not rendered like the subtraction from zero it stands for: the
      generic rendering of `(- 0 a)` puts a space after its opening parenthesis, the
      rewrite of `(- a)` does not. */
  lemma UnaryMinusUnlikeSubtraction(hp: Position, a: Expr, p: Position, q: Position, t: string)
    requires Translate(a) == Ok(t)
    ensures Translate(App(Symbol("-", hp), [Numeral(0, q), a], p)) == Ok("( - 0 " + t + " )")
    ensures Translate(App(Symbol("-", hp), [a], p)) != Translate(App(Symbol("-", hp), [Numeral(0, q), a], p))
  {
    SubtractionFromZero(hp, a, p, q, t);
    UnaryMinus(hp, a, p, t);
    SpacingDiffers(t);
  }

  lemma SubtractionFromZero(hp: Position, a: Expr, p: Position, q: Position, t: string)
    requires Translate(a) == Ok(t)
    ensures Translate(App(Symbol("-", hp), [Numeral(0, q), a], p)) == Ok("( - 0 " + t + " )")
  {
    var args := [Numeral(0, q), a];
    ZeroAndOperand(q, a, t);
    assert RewriteOf("-", 2) == KeepNary;
    NaryText("-", hp, args, p, " 0 " + t);
    assert "( " + "-" + (" 0 " + t) + " )" == "( - 0 " + t + " )";
  }

  lemma ZeroAndOperand(q: Position, a: Expr, t: string)
    requires Translate(a) == Ok(t)
    ensures Arguments([Numeral(0, q), a], 2) == Ok(" 0 " + t)
  {
    var args := [Numeral(0, q), a];
    assert NatToString(0) == "0";
    assert Arguments(args, 1) == Ok("" + (" " + "0"));
    assert "" + (" " + "0") + (" " + t) == " 0 " + t;
  }

  lemma SpacingDiffers(t: string)
    ensures "(- 0 " + t + " )" != "( - 0 " + t + " )"
  {
    var unary := "(- 0 " + t + " )";
    var binary := "( - 0 " + t + " )";
    assert unary[1] == '-' && binary[1] == ' ';
  }
}
