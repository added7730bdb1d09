/** Where the translator's failures come from: every failure is either raised at one node of
    the expression, with that node's message and position, and passed up unchanged, or comes
    from an unsupported identifier or sort and carries no position. */
module TranslatorFailures {
  import opened Wrappers
  import opened Syntax
  import opened Translator

  // ---------------------------------------------------------------------------------
  // Each loop fails with the failure of one of the arguments it translates

  lemma {:induction false} ArgumentsFailure(args: seq<Expr>, k: nat)
    requires k <= |args| && Arguments(args, k).Err?
    ensures exists i | 0 <= i < k :: Translate(args[i]) == Arguments(args, k)
    decreases k
  {
    if Arguments(args, k - 1).Err? {
      ArgumentsFailure(args, k - 1);
    } else {
      assert Translate(args[k - 1]) == Arguments(args, k);
    }
  }

  lemma {:induction false} ChainPairsFailure(op: string, args: seq<Expr>, k: nat)
    requires k <= |args| && ChainPairs(op, args, k).Err?
    ensures exists i | 0 <= i < k :: Translate(args[i]) == ChainPairs(op, args, k)
    decreases k
  {
    if ChainPairs(op, args, k - 1).Err? {
      ChainPairsFailure(op, args, k - 1);
    } else if Translate(args[k - 2]).Err? {
      assert Translate(args[k - 2]) == ChainPairs(op, args, k);
    } else {
      assert Translate(args[k - 1]) == ChainPairs(op, args, k);
    }
  }

  lemma {:induction false} LeftAssocFailure(op: string, args: seq<Expr>, length: nat)
    requires 1 <= length <= |args| && LeftAssoc(op, args, length).Err?
    ensures exists i | 0 <= i < length :: Translate(args[i]) == LeftAssoc(op, args, length)
    decreases length
  {
    if length == 1 {
      assert Translate(args[0]) == LeftAssoc(op, args, length);
    } else if LeftAssoc(op, args, length - 1).Err? {
      LeftAssocFailure(op, args, length - 1);
    } else {
      assert Translate(args[length - 1]) == LeftAssoc(op, args, length);
    }
  }

  lemma {:induction false} RightAssocFailure(op: string, args: seq<Expr>, i: nat)
    requires i < |args| && RightAssoc(op, args, i).Err?
    ensures exists m | i <= m < |args| :: Translate(args[m]) == RightAssoc(op, args, i)
    decreases |args| - i
  {
    if Translate(args[i]).Err? {
      assert Translate(args[i]) == RightAssoc(op, args, i);
    } else {
      RightAssocFailure(op, args, i + 1);
    }
  }

  lemma {:induction false} DistinctRowFailure(args: seq<Expr>, j: nat, k: nat)
    requires k <= j < |args| && DistinctRow(args, j, k).Err?
    ensures exists i | 0 <= i <= j :: Translate(args[i]) == DistinctRow(args, j, k)
    decreases k
  {
    if DistinctRow(args, j, k - 1).Err? {
      DistinctRowFailure(args, j, k - 1);
    } else if Translate(args[j]).Err? {
      assert Translate(args[j]) == DistinctRow(args, j, k);
    } else {
      assert Translate(args[k - 1]) == DistinctRow(args, j, k);
    }
  }

  lemma {:induction false} DistinctPairsUpToFailure(args: seq<Expr>, j: nat)
    requires j <= |args| && DistinctPairsUpTo(args, j).Err?
    ensures exists i | 0 <= i < j :: Translate(args[i]) == DistinctPairsUpTo(args, j)
    decreases j
  {
    if DistinctPairsUpTo(args, j - 1).Err? {
      DistinctPairsUpToFailure(args, j - 1);
    } else {
      DistinctRowFailure(args, j - 1, j - 1);
    }
  }

  lemma {:induction false} BindingsFailure(bs: seq<Binding>, k: nat)
    requires k <= |bs| && Bindings(bs, k).Err?
    ensures exists i | 0 <= i < k :: Translate(bs[i].expr) == Bindings(bs, k)
    decreases k
  {
    if Bindings(bs, k - 1).Err? {
      BindingsFailure(bs, k - 1);
    } else {
      assert Translate(bs[k - 1].expr) == Bindings(bs, k);
    }
  }

  /** A quantifier's parameter sorts fail only in ways that carry no position and no
      node's message. */
  lemma {:induction false} DeclarationsFailure(ds: seq<Declaration>, k: nat)
    requires k <= |ds| && Declarations(ds, k).Err?
    ensures Declarations(ds, k).error.pos == None && !Positioned(Declarations(ds, k).error.message)
    decreases k
  {
    if Declarations(ds, k - 1).Err? {
      DeclarationsFailure(ds, k - 1);
    } else {
      SortFailureUnpositioned(ds[k - 1].sort);
    }
  }

  /** Every rewrite of an application fails with the failure of one of its arguments. */
  lemma TranslateAppFailure(f: string, args: seq<Expr>)
    requires |args| > 0 && TranslateApp(f, args).Err?
    ensures exists i | 0 <= i < |args| :: Translate(args[i]) == TranslateApp(f, args)
  {
    match RewriteOf(f, |args|)
    case KeepNary => ArgumentsFailure(args, |args|);
    case Chain => ChainPairsFailure(f, args, |args|);
    case FoldLeft => LeftAssocFailure("/=", args, |args|);
    case FoldRight => RightAssocFailure("=>", args, 0);
    case Inequality => ArgumentsFailure(args, 2);
    case Pairwise => DistinctPairsUpToFailure(args, |args|);
    case Negate => assert Translate(args[0]) == TranslateApp(f, args);
  }

  // ---------------------------------------------------------------------------------
  // Where a failure is raised

  /** Failure `f` is the one raised at some node of `e`: a literal, keyword or error token
      Yices cannot take, or an application without arguments, each with its own message
      and its own position. */
  predicate RaisesAt(e: Expr, f: Failure)
    decreases e
  {
    match e
    case Numeral(_, _) => false
    case Decimal(_, q) => f == Failure(DecimalLiteralMessage, q)
    case StringLiteral(_, q) => f == Failure(StringLiteralMessage, q)
    case BinaryLiteral(_, q) => f == Failure(BinaryLiteralMessage, q)
    case HexLiteral(_, q) => f == Failure(HexLiteralMessage, q)
    case Keyword(_, q) => f == Failure(KeywordMessage, q)
    case ErrorNode(_, q) => f == Failure(ErrorNodeMessage, q)
    case Id(_) => false
    case App(_, args, q) =>
      (|args| == 0 && f == Failure(EmptyArgumentsMessage, q))
      || exists i | 0 <= i < |args| :: RaisesAt(args[i], f)
    case Forall(_, body, _) => RaisesAt(body, f)
    case Exists(_, body, _) => RaisesAt(body, f)
    case Let(bs, body, _) => RaisesAt(body, f) || exists i | 0 <= i < |bs| :: RaisesAt(bs[i].expr, f)
    case Attributed(inner, _, _) => RaisesAt(inner, f)
  }

  /** Every failure is either raised at a node of the translated expression, with that
      node's message and position, or comes from an unimplemented construct and then carries
      neither a position nor a node's message. */
  lemma {:induction false} FailureLocated(e: Expr)
    ensures Translate(e).Err? ==>
      RaisesAt(e, Translate(e).error) || (Translate(e).error.pos == None && !Positioned(Translate(e).error.message))
    decreases e
  {
    var r := Translate(e);
    if r.Err? {
      match e
      case Numeral(_, _) =>
      case Decimal(_, _) =>
      case StringLiteral(_, _) =>
      case BinaryLiteral(_, _) =>
      case HexLiteral(_, _) =>
      case Keyword(_, _) =>
      case ErrorNode(_, _) =>
      case Id(_) =>
      case App(head, args, q) =>
        if |args| > 0 && TranslateIdentifier(head).Ok? {
          var f := TranslateIdentifier(head).value;
          assert TranslateApp(f, args) == r;
          TranslateAppFailure(f, args);
          var i :| 0 <= i < |args| && Translate(args[i]) == r;
          FailureLocated(args[i]);
        } else if |args| > 0 {
          IdentifierFailureUnpositioned(head);
        }
      case Forall(ds, body, _) =>
        if Declarations(ds, |ds|).Err? {
          DeclarationsFailure(ds, |ds|);
        } else {
          FailureLocated(body);
        }
      case Exists(ds, body, _) =>
        if Declarations(ds, |ds|).Err? {
          DeclarationsFailure(ds, |ds|);
        } else {
          FailureLocated(body);
        }
      case Let(bs, body, _) =>
        if Bindings(bs, |bs|).Err? {
          BindingsFailure(bs, |bs|);
          var i :| 0 <= i < |bs| && Translate(bs[i].expr) == r;
          FailureLocated(bs[i].expr);
        } else {
          FailureLocated(body);
        }
      case Attributed(inner, _, _) =>
        FailureLocated(inner);
    }
  }
}
