/** The typed syntax tree: Program -> Statement -> Operation -> Expression. */
module Syntax {
  import opened Wrappers

  /** One operand, reduced to the text of its innermost non-wrapper token. */
  datatype Expression = Expression(value: string)

  /** An instruction or directive with its operands in source order. */
  datatype Operation = Operation(instruction: string, parameters: seq<Expression>)

  /** One source line: an optional label (`label` is a Dafny keyword, hence `labelText`), trailing comment and operation. */
  datatype Statement = Statement(labelText: Option<string>, comment: Option<string>, operation: Option<Operation>)

  /** A whole source file. */
  datatype Program = Program(statements: seq<Statement>)

  /** The node kinds the builder can produce. */
  datatype Ast =
    | ProgramAst(program: Program)
    | StatementAst(statement: Statement)
    | OperationAst(operation: Operation)
    | ExpressionAst(expression: Expression)

  /** The mnemonic of the statement's operation, if it has one. */
  function OperationName(s: Statement): (r: Option<string>)
    ensures r.Some? <==> s.operation.Some?
    ensures forall o :: s.operation == Some(o) ==> r == Some(o.instruction)
  {
    match s.operation
    case Some(o) => Some(o.instruction)
    case None => None
  }

  /** The value of the first operand, if there is one. */
  function FirstParamAsStr(o: Operation): (r: Option<string>)
    ensures r.None? <==> o.parameters == []
    ensures o.parameters != [] ==> r == Some(o.parameters[0].value)
  {
    if |o.parameters| == 0 then None else Some(o.parameters[0].value)
  }
}
