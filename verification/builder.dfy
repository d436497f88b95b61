/**
  The parse-tree-to-AST transformer: `BuildAst` folds one tagged node into
  at most one typed node, `ExprToString` unwraps an operand, and `Parse`
  turns the parser's output into a `Program` or an error.
 */
module Builder {
  import opened Wrappers
  import opened Syntax
  import ParseTree

  /**
    What a call of the builder does: it returns a value, or it panics. The
    only panic is the unwrap of a missing instruction name in an operation;
    it unwinds through every enclosing call, so every fold below passes it on.
   */
  datatype Outcome<T> = Returns(value: T) | Panics

  /** The locals of the operation loop: the instruction seen last and the operands so far. */
  datatype OperationDraft = OperationDraft(instruction: Option<string>, parameters: seq<Expression>)

  /** The errors `Parse` reports. */
  datatype ParseError<E> =
    | ParseFailure(cause: E)    // the parser's own error, passed on unchanged
    | NoProgram                 // the root is missing or does not build to a program
    | MalformedOperation        // an operation without an instruction name was reached

  /** The value of an operand: the first child only, looking through wrapper rules. */
  function ExprToString(n: ParseTree.Node): (r: Option<string>)
    decreases n
    // a node without children has no value
    ensures |n.children| == 0 ==> r.None?
    // a first child that is not a wrapper is the value itself
    ensures |n.children| > 0 && !n.children[0].rule.IsWrapper() ==> r == Some(n.children[0].text)
  {
    if |n.children| == 0 then None
    else
      var e := n.children[0];
      if e.rule.IsWrapper() then ExprToString(e) else Some(e.text)
  }

  /** Builds one node of the syntax tree from a parse-tree node. */
  function BuildAst(n: ParseTree.Node): (r: Outcome<Option<Ast>>)
    decreases n, |n.children| + 1
    // the kind of node built is the kind of rule matched
    ensures r.Returns? && r.value.Some? ==>
              (r.value.value.ProgramAst? <==> n.rule.Program?)
              && (r.value.value.StatementAst? <==> n.rule.Statement?)
              && (r.value.value.OperationAst? <==> n.rule.Operation?)
              && (r.value.value.ExpressionAst? <==> n.rule.Expression?)
    // program and statement nodes always build, unless a nested operation panics
    ensures n.rule.Program? || n.rule.Statement? || n.rule.Operation? ==> r.Panics? || r.value.Some?
    // only operations panic, directly or below a program or statement
    ensures r.Panics? ==> n.rule.Program? || n.rule.Statement? || n.rule.Operation?
    // any other rule builds nothing
    ensures !(n.rule.Program? || n.rule.Statement? || n.rule.Operation? || n.rule.Expression?) ==>
              r == Returns(None)
  {
    var k := |n.children|;
    if n.rule.Program? then
      match CollectStatements(n, k)
      case Panics => Panics
      case Returns(statements) => Returns(Some(ProgramAst(Program(statements))))
    else if n.rule.Statement? then
      match AssembleStatement(n, k)
      case Panics => Panics
      case Returns(s) => Returns(Some(StatementAst(s)))
    else if n.rule.Operation? then
      var d := AssembleOperation(n, k);
      match d.instruction
      case None => Panics
      case Some(name) => Returns(Some(OperationAst(Operation(name, d.parameters))))
    else if n.rule.Expression? then
      match ExprToString(n)
      case Some(v) => Returns(Some(ExpressionAst(Expression(v))))
      case None => Returns(None)
    else
      Returns(None)
  }

  /** The program loop over the first `k` children: keep what builds to a statement. */
  function CollectStatements(n: ParseTree.Node, k: nat): (r: Outcome<seq<Statement>>)
    requires k <= |n.children|
    decreases n, k
    // at most one statement per child
    ensures r.Returns? ==> |r.value| <= k
  {
    if k == 0 then Returns([])
    else
      match CollectStatements(n, k - 1)
      case Panics => Panics
      case Returns(statements) =>
        match BuildAst(n.children[k - 1])
        case Panics => Panics
        case Returns(Some(StatementAst(s))) => Returns(statements + [s])
        case Returns(_) => Returns(statements)
  }

  /** The statement loop over the first `k` children: each assignment overwrites the last. */
  function AssembleStatement(n: ParseTree.Node, k: nat): (r: Outcome<Statement>)
    requires k <= |n.children|
    decreases n, k
    // a field is only ever set from a child that was seen
    ensures r.Returns? && (r.value.labelText.Some? || r.value.comment.Some? || r.value.operation.Some?) ==> k > 0
  {
    if k == 0 then Returns(Statement(None, None, None))
    else
      match AssembleStatement(n, k - 1)
      case Panics => Panics
      case Returns(s) =>
        var c := n.children[k - 1];
        if c.rule.Label? then Returns(s.(labelText := Some(c.text)))
        else if c.rule.CommentText? then Returns(s.(comment := Some(c.text)))
        else
          match BuildAst(c)
          case Panics => Panics
          case Returns(Some(OperationAst(o))) => Returns(s.(operation := Some(o)))
          case Returns(_) => Returns(s)
  }

  /** The operation loop over the first `k` children; children of other rules are skipped. */
  function AssembleOperation(n: ParseTree.Node, k: nat): (r: OperationDraft)
    requires k <= |n.children|
    decreases n, k
    // at most one operand per child, and a name only once a child was seen
    ensures |r.parameters| <= k
    ensures r.instruction.Some? ==> k > 0
  {
    if k == 0 then OperationDraft(None, [])
    else
      var d := AssembleOperation(n, k - 1);
      var c := n.children[k - 1];
      if c.rule.NamesInstruction() then d.(instruction := Some(c.text))
      else if c.rule.Expression? then
        // an expression node never panics (see BuildProperties.ExpressionBuild)
        match BuildAst(c)
        case Returns(Some(ExpressionAst(e))) => d.(parameters := d.parameters + [e])
        case _ => d
      else d
  }

  /** True when `n` builds, without panicking, to exactly the program `p`. */
  predicate BuildsProgram(n: ParseTree.Node, p: Program)
  {
    BuildAst(n) == Returns(Some(ProgramAst(p)))
  }

  /**
    The entry point. `parsed` stands for the grammar-driven parser's result:
    the top-level nodes it matched, or its error. The first node is the root.
   */
  function Parse<E>(parsed: Result<seq<ParseTree.Node>, E>): (r: Result<Program, ParseError<E>>)
    // a parser error is passed on unchanged
    ensures parsed.Failure? ==> r == Failure(ParseFailure(parsed.error))
    // success exactly when the root exists and builds to a program, which is the result
    ensures r.Success? <==> parsed.Success? && |parsed.value| > 0 && BuildAst(parsed.value[0]).Returns?
                            && BuildAst(parsed.value[0]).value.Some? && BuildAst(parsed.value[0]).value.value.ProgramAst?
    ensures r.Success? ==> BuildsProgram(parsed.value[0], r.value)
    // a missing instruction name surfaces as an error instead of a panic
    ensures r == Failure(MalformedOperation) <==>
              parsed.Success? && |parsed.value| > 0 && BuildAst(parsed.value[0]).Panics?
    ensures r == Failure(NoProgram) <==>
              parsed.Success? && (|parsed.value| == 0
                                  || (BuildAst(parsed.value[0]).Returns? && !(BuildAst(parsed.value[0]).value.Some?
                                                                                && BuildAst(parsed.value[0]).value.value.ProgramAst?)))
  {
    match parsed
    case Failure(e) => Failure(ParseFailure(e))
    case Success(roots) =>
      if |roots| == 0 then Failure(NoProgram)
      else
        match BuildAst(roots[0])
        case Panics => Failure(MalformedOperation)
        case Returns(Some(ProgramAst(p))) => Success(p)
        case Returns(_) => Failure(NoProgram)
  }
}
