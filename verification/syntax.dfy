/** The solver-independent SMT-LIB abstract syntax that the Yices translator consumes.
    Every node carries the position it was parsed from, when known. */
module Syntax {
  import opened Wrappers
  import Positions

  type Position = Option<Positions.Pos>

  /** Identifiers: a plain symbol, an indexed identifier `(_ f i1 ... in)`, or a
      sort-qualified identifier `(as f S)`. */
  datatype Identifier =
    | Symbol(name: string, pos: Position)
    | Parameterized(name: string, indices: seq<nat>, pos: Position)
    | As(name: string, sort: Sort, pos: Position)

  /** Sorts: a sort expression (a family applied to parameter sorts), an unexpanded
      abbreviation, a function sort and a sort parameter. */
  datatype Sort =
    | SortApp(family: Identifier, params: seq<Sort>, pos: Position)
    | Abbreviation(name: string, params: seq<Sort>, pos: Position)
    | FcnSort(args: seq<Sort>, result: Sort)
    | SortParameter(name: string)

  /** The Boolean sort is the sort expression `Bool`: the plain symbol with no parameters. */
  predicate IsBool(s: Sort) {
    s.SortApp? && s.family.Symbol? && s.family.name == "Bool" && |s.params| == 0
  }

  /** A quantifier's parameter declaration `(x S)`. */
  datatype Declaration = Declaration(parameter: string, sort: Sort)

  /** A `let` binding `(x e)`. */
  datatype Binding = Binding(parameter: string, expr: Expr)

  /** Expressions. `Attributed` wraps an expression with attributes that translation ignores;
      `ErrorNode` stands for a malformed fragment left by the parser. */
  datatype Expr =
    | Numeral(value: nat, pos: Position)
    | Decimal(text: string, pos: Position)
    | StringLiteral(text: string, pos: Position)
    | BinaryLiteral(text: string, pos: Position)
    | HexLiteral(text: string, pos: Position)
    | Keyword(name: string, pos: Position)
    | ErrorNode(message: string, pos: Position)
    | Id(id: Identifier)
    | App(head: Identifier, args: seq<Expr>, pos: Position)
    | Forall(params: seq<Declaration>, body: Expr, pos: Position)
    | Exists(params: seq<Declaration>, body: Expr, pos: Position)
    | Let(bindings: seq<Binding>, body: Expr, pos: Position)
    | Attributed(expr: Expr, attributes: seq<string>, pos: Position)
}
