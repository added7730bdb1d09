/** Translation of SMT-LIB expressions and sorts into Yices concrete syntax
    (Solver_yices.Translator). Each helper mirrors one loop or recursive method of the
    translator; the `UpTo` helpers give the text accumulated after the first k steps of a
    loop, so sub-translations are attempted, and fail, in the same order as there. */
module Translator {
  import opened Wrappers
  import opened Syntax
  import opened Text

  // Messages of the failures the translator reports with a position
  const DecimalLiteralMessage: string := "The yices solver cannot handle decimal literals"
  const StringLiteralMessage: string := "The yices solver cannot handle string literals"
  const BinaryLiteralMessage: string := "Did not expect a Binary literal in an expression to be translated"
  const HexLiteralMessage: string := "Did not expect a Hex literal in an expression to be translated"
  const KeywordMessage: string := "Did not expect a Keyword in an expression to be translated"
  const ErrorNodeMessage: string := "Did not expect a Error token in an expression to be translated"
  const EmptyArgumentsMessage: string := "Did not expect an empty argument list"

  /** The messages of the failures raised at one node of an expression, with that node's
      position. */
  predicate Positioned(message: string) {
    || message == DecimalLiteralMessage || message == StringLiteralMessage
    || message == BinaryLiteralMessage || message == HexLiteralMessage
    || message == KeywordMessage || message == ErrorNodeMessage
    || message == EmptyArgumentsMessage
  }

  /** Why a translation failed, and where the offending node was parsed, when known.
      Constructs the translator does not implement at all fail without a position. */
  datatype Failure = Failure(message: string, pos: Position)

  type Translation = Result<string, Failure>

  /** The chainable comparison operators, which Yices does not chain. */
  predicate IsChainable(f: string) {
    f == "=" || f == "<" || f == ">" || f == "<=" || f == ">="
  }

  /** A chainable operator or `distinct` applied to a single argument renders without
      translating that argument. */
  predicate IgnoresSoleArgument(f: string, arity: nat) {
    arity == 1 && (IsChainable(f) || f == "distinct")
  }

  /** Sorts the translator renders: sort expressions without parameters whose family is a
      plain symbol, `Bool` among them. */
  predicate SortSupported(s: Sort) {
    s.SortApp? && |s.params| == 0 && s.family.Symbol?
  }

  /** Expressions the translator renders, stated node by node without reference to the
      translator: numerals, plain symbols, applications with at least one argument and a
      plain-symbol head, quantifiers over supported sorts, lets and attributed expressions,
      provided every sub-expression that gets translated is supported. */
  predicate Supported(e: Expr) {
    match e
    case Numeral(_, _) => true
    case Id(id) => id.Symbol?
    case App(head, args, _) =>
      && |args| > 0
      && head.Symbol?
      && (IgnoresSoleArgument(head.name, |args|) || forall i | 0 <= i < |args| :: Supported(args[i]))
    case Forall(ds, body, _) => (forall i | 0 <= i < |ds| :: SortSupported(ds[i].sort)) && Supported(body)
    case Exists(ds, body, _) => (forall i | 0 <= i < |ds| :: SortSupported(ds[i].sort)) && Supported(body)
    case Let(bs, body, _) => (forall i | 0 <= i < |bs| :: Supported(bs[i].expr)) && Supported(body)
    case Attributed(inner, _, _) => Supported(inner)
    case _ => false
  }

  /** A symbol renders as its name; indexed and `as` identifiers are not supported. */
  function TranslateIdentifier(id: Identifier): (r: Translation)
    ensures r.Ok? <==> id.Symbol?
    ensures r.Ok? ==> r.value == id.name
    ensures r.Err? ==> r.error.pos == None
  {
    match id
    case Symbol(name, _) => Ok(name)
    case Parameterized(_, _, _) => Err(Failure("visit-IParameterizedIdentifier", None))
    case As(_, _, _) => Err(Failure("visit-IAsIdentifier", None))
  }

  /** The sort-name substitution table: SMT-LIB `Int` and `Real` become Yices `int` and
      `real`; every other name is kept. */
  function YicesSortName(name: string): string {
    if name == "Int" then "int" else if name == "Real" then "real" else name
  }

  /** `Bool` renders as `bool`, any other parameterless sort expression over a symbol through
      the substitution table, and every other sort fails. */
  function TranslateSort(s: Sort): (r: Translation)
    ensures r.Ok? <==> SortSupported(s)
    ensures IsBool(s) ==> r == Ok("bool")
    ensures r.Ok? && !IsBool(s) ==> r.value == YicesSortName(s.family.name)
    ensures r.Err? ==> r.error.pos == None
  {
    match s
    case SortApp(family, params, _) =>
      if IsBool(s) then Ok("bool")
      else if |params| == 0 then
        var name :- TranslateIdentifier(family);
        Ok(YicesSortName(name))
      else
        Err(Failure("visit-ISort.IExpression", None))
    case Abbreviation(_, _, _) => Err(Failure("visit-ISort.IAbbreviation", None))
    case FcnSort(_, _) => Err(Failure("visit-ISort.IFcnSort", None))
    case SortParameter(_) => Err(Failure("visit-ISort.IParameter", None))
  }

  /** A failing identifier does not fail with any message an expression node raises. */
  lemma IdentifierFailureUnpositioned(id: Identifier)
    ensures TranslateIdentifier(id).Err? ==> !Positioned(TranslateIdentifier(id).error.message)
  {
  }

  /** A failing sort does not fail with any message an expression node raises. */
  lemma SortFailureUnpositioned(s: Sort)
    ensures TranslateSort(s).Err? ==> !Positioned(TranslateSort(s).error.message)
  {
  }

  /** The Yices rendering of an expression, or the first failure met while producing it. */
  function Translate(e: Expr): Translation
    decreases e
  {
    match e
    case Numeral(v, _) => Ok(NatToString(v))
    case Decimal(_, p) => Err(Failure(DecimalLiteralMessage, p))
    case StringLiteral(_, p) => Err(Failure(StringLiteralMessage, p))
    case BinaryLiteral(_, p) => Err(Failure(BinaryLiteralMessage, p))
    case HexLiteral(_, p) => Err(Failure(HexLiteralMessage, p))
    case Keyword(_, p) => Err(Failure(KeywordMessage, p))
    case ErrorNode(_, p) => Err(Failure(ErrorNodeMessage, p))
    case Id(id) => TranslateIdentifier(id)
    case App(head, args, p) =>
      if |args| == 0 then
        Err(Failure(EmptyArgumentsMessage, p))
      else
        var f :- TranslateIdentifier(head);
        TranslateApp(f, args)
    case Forall(ds, body, _) =>
      var d :- Declarations(ds, |ds|);
      var b :- Translate(body);
      Ok("(forall (" + d + ") " + b + ")")
    case Exists(ds, body, _) =>
      var d :- Declarations(ds, |ds|);
      var b :- Translate(body);
      Ok("(exists (" + d + ") " + b + ")")
    case Let(bs, body, _) =>
      var d :- Bindings(bs, |bs|);
      var b :- Translate(body);
      Ok("(let (" + d + ") " + b + ")")
    case Attributed(inner, _, _) =>
      Translate(inner)
  }

  /** How an application is rewritten, decided by its operator name and arity. */
  datatype Rewrite =
    | KeepNary    // `( f a1 ... ak )`
    | Chain       // a conjunction of adjacent pairs
    | FoldLeft    // `xor` as left-nested `/=`
    | FoldRight   // right-nested `=>`
    | Inequality  // `distinct` of two arguments as one `/=`
    | Pairwise    // `distinct` as a conjunction of all pairwise `/=`
    | Negate      // unary `-` as a subtraction from zero

  function RewriteOf(f: string, arity: nat): Rewrite {
    if f == "or" || f == "and" then KeepNary
    else if IsChainable(f) then Chain
    else if f == "xor" then FoldLeft
    else if f == "=>" then FoldRight
    else if f == "distinct" then (if arity == 2 then Inequality else Pairwise)
    else if arity == 1 && f == "-" then Negate
    else KeepNary
  }

  /** An application of the operator named `f` to a nonempty argument list. */
  function TranslateApp(f: string, args: seq<Expr>): Translation
    requires |args| > 0
    decreases args, |args| + 1
  {
    match RewriteOf(f, |args|)
    case KeepNary =>
      var s :- Arguments(args, |args|);
      Ok("( " + f + s + " )")
    case Chain =>
      var s :- ChainPairs(f, args, |args|);
      Ok("(and " + s + ")")
    case FoldLeft =>
      LeftAssoc("/=", args, |args|)
    case FoldRight =>
      // the argument list is known to be nonempty here
      RightAssoc("=>", args, 0)
    case Inequality =>
      var s :- Arguments(args, 2);
      Ok("(/=" + s + ")")
    case Pairwise =>
      var s :- DistinctPairsUpTo(args, |args|);
      Ok("(and" + s + ")")
    case Negate =>
      var a :- Translate(args[0]);
      Ok("(- 0 " + a + " )")
  }

  /** The first k arguments, each preceded by a space. */
  function Arguments(args: seq<Expr>, k: nat): Translation
    requires k <= |args|
    decreases args, k
  {
    if k == 0 then Ok("")
    else
      var s :- Arguments(args, k - 1);
      var a :- Translate(args[k - 1]);
      Ok(s + (" " + a))
  }

  /** `remove_chainable`: one `(op left right)` per adjacent pair among the first k arguments. */
  function ChainPairs(op: string, args: seq<Expr>, k: nat): Translation
    requires k <= |args|
    decreases args, k
  {
    if k <= 1 then Ok("")
    else
      var s :- ChainPairs(op, args, k - 1);
      var l :- Translate(args[k - 2]);
      var r :- Translate(args[k - 1]);
      Ok(s + ("(" + op + " " + l + " " + r + ")"))
  }

  /** `remove_leftassoc`: the first `length` arguments grouped from the left. */
  function LeftAssoc(op: string, args: seq<Expr>, length: nat): Translation
    requires 1 <= length <= |args|
    decreases args, length
  {
    if length == 1 then Translate(args[0])
    else
      var l :- LeftAssoc(op, args, length - 1);
      var r :- Translate(args[length - 1]);
      Ok("(" + op + " " + l + " " + r + ")")
  }

  /** `remove_rightassoc`: the arguments from index i on, grouped from the right. */
  function RightAssoc(op: string, args: seq<Expr>, i: nat): Translation
    requires i < |args|
    decreases args, |args| - i
  {
    var a :- Translate(args[i]);
    if i == |args| - 1 then Ok(a)
    else
      var rest :- RightAssoc(op, args, i + 1);
      Ok("(" + op + " " + a + " " + rest + ")")
  }

  /** The inner loop of `distinct`: ` (/= aj ai)` for every i < k. */
  function DistinctRow(args: seq<Expr>, j: nat, k: nat): Translation
    requires k <= j < |args|
    decreases args, j, k
  {
    if k == 0 then Ok("")
    else
      var s :- DistinctRow(args, j, k - 1);
      var a :- Translate(args[j]);
      var b :- Translate(args[k - 1]);
      Ok(s + (" (/= " + a + " " + b + ")"))
  }

  /** The outer loop of `distinct`: the rows of the first j arguments. */
  function DistinctPairsUpTo(args: seq<Expr>, j: nat): Translation
    requires j <= |args|
    decreases args, j
  {
    if j == 0 then Ok("")
    else
      var s :- DistinctPairsUpTo(args, j - 1);
      var row :- DistinctRow(args, j - 1, j - 1);
      Ok(s + row)
  }

  /** Quantifier parameters: `name::sort ` for each of the first k declarations. */
  function Declarations(ds: seq<Declaration>, k: nat): Translation
    requires k <= |ds|
  {
    if k == 0 then Ok("")
    else
      var s :- Declarations(ds, k - 1);
      var sort :- TranslateSort(ds[k - 1].sort);
      Ok(s + (ds[k - 1].parameter + "::" + sort + " "))
  }

  /** Let bindings: `(name expr)` for each of the first k bindings. */
  function Bindings(bs: seq<Binding>, k: nat): Translation
    requires k <= |bs|
    decreases bs, k
  {
    if k == 0 then Ok("")
    else
      var s :- Bindings(bs, k - 1);
      var v :- Translate(bs[k - 1].expr);
      Ok(s + ("(" + bs[k - 1].parameter + " " + v + ")"))
  }
}
