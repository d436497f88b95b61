/**
  Hand-built parse trees for a few source lines, and what the builder makes
  of them. The grammar is not part of this model, so the tree shapes below
  are plausible ones, not ones taken from it.
 */
module Examples {
  import opened Wrappers
  import opened Syntax
  import ParseTree
  import opened Builder

  function Leaf(rule: ParseTree.Rule, text: string): ParseTree.Node
  {
    ParseTree.Node(rule, text, [])
  }

  /** An operand: an expression wrapping `wrapper`, which wraps a token. */
  function Operand(wrapper: ParseTree.Rule, token: ParseTree.Rule, text: string): ParseTree.Node
  {
    ParseTree.Node(ParseTree.Expression, text, [ParseTree.Node(wrapper, text, [Leaf(token, text)])])
  }

  function Root(lines: seq<ParseTree.Node>): Result<seq<ParseTree.Node>, string>
  {
    Success([ParseTree.Node(ParseTree.Program, "", lines)])
  }

  /** `START: INC B ; bump` */
  function LabelledLine(): ParseTree.Node
  {
    ParseTree.Node(ParseTree.Statement, "START: INC B ; bump", [
      Leaf(ParseTree.Label, "START"),
      ParseTree.Node(ParseTree.Operation, "INC B", [
        Leaf(ParseTree.Instruction, "INC"),
        Operand(ParseTree.Register, ParseTree.Other("reg8"), "B")
      ]),
      Leaf(ParseTree.CommentText, "bump")
    ])
  }

  /** `LD A, 5` */
  function LoadLine(): ParseTree.Node
  {
    ParseTree.Node(ParseTree.Statement, "LD A, 5", [
      ParseTree.Node(ParseTree.Operation, "LD A, 5", [
        Leaf(ParseTree.Instruction, "LD"),
        Operand(ParseTree.Register, ParseTree.Other("reg8"), "A"),
        Leaf(ParseTree.Other("comma"), ","),
        Operand(ParseTree.Literal, ParseTree.Other("number"), "5")
      ])
    ])
  }

  /** `LOOP:` is a statement with only a label. */
  lemma LabelOnlyLine()
    ensures BuildAst(ParseTree.Node(ParseTree.Statement, "LOOP:", [Leaf(ParseTree.Label, "LOOP")]))
            == Returns(Some(StatementAst(Statement(Some("LOOP"), None, None))))
  {
    var st := ParseTree.Node(ParseTree.Statement, "LOOP:", [Leaf(ParseTree.Label, "LOOP")]);
    assert AssembleStatement(st, 1) == Returns(Statement(Some("LOOP"), None, None));
  }

  /** `; hello` is a statement with only a comment. */
  lemma CommentOnlyLine()
    ensures BuildAst(ParseTree.Node(ParseTree.Statement, "; hello", [Leaf(ParseTree.CommentText, "hello")]))
            == Returns(Some(StatementAst(Statement(None, Some("hello"), None))))
  {
    var st := ParseTree.Node(ParseTree.Statement, "; hello", [Leaf(ParseTree.CommentText, "hello")]);
    assert AssembleStatement(st, 1) == Returns(Statement(None, Some("hello"), None));
  }

  /** `START: INC B ; bump`: label, instruction, the register operand unwrapped, comment. */
  lemma LabelledInstruction()
    ensures BuildAst(LabelledLine())
            == Returns(Some(StatementAst(Statement(Some("START"), Some("bump"), Some(Operation("INC", [Expression("B")]))))))
  {
    var st := LabelledLine();
    var op := st.children[1];
    var b := op.children[1];
    assert ExprToString(b.children[0]) == Some("B");
    assert BuildAst(b) == Returns(Some(ExpressionAst(Expression("B"))));
    assert AssembleOperation(op, 1) == OperationDraft(Some("INC"), []);
    assert [] + [Expression("B")] == [Expression("B")];
    assert AssembleOperation(op, 2) == OperationDraft(Some("INC"), [Expression("B")]);
    assert AssembleStatement(st, 1) == Returns(Statement(Some("START"), None, None));
    assert AssembleStatement(st, 2) == Returns(Statement(Some("START"), None, Some(Operation("INC", [Expression("B")]))));
    assert AssembleStatement(st, 3) == Returns(Statement(Some("START"), Some("bump"), Some(Operation("INC", [Expression("B")]))));
  }

  /** `LD A, 5`: both operands, in order; the separator child has no effect. */
  lemma LoadInstruction()
    ensures BuildAst(LoadLine())
            == Returns(Some(StatementAst(Statement(None, None, Some(Operation("LD", [Expression("A"), Expression("5")]))))))
  {
    var st := LoadLine();
    var op := st.children[0];
    var a := op.children[1];
    var five := op.children[3];
    assert ExprToString(a.children[0]) == Some("A");
    assert BuildAst(a) == Returns(Some(ExpressionAst(Expression("A"))));
    assert ExprToString(five.children[0]) == Some("5");
    assert BuildAst(five) == Returns(Some(ExpressionAst(Expression("5"))));
    assert AssembleOperation(op, 1) == OperationDraft(Some("LD"), []);
    assert [] + [Expression("A")] == [Expression("A")];
    assert AssembleOperation(op, 2) == OperationDraft(Some("LD"), [Expression("A")]);
    assert AssembleOperation(op, 3) == OperationDraft(Some("LD"), [Expression("A")]);
    assert AssembleOperation(op, 4) == OperationDraft(Some("LD"), [Expression("A"), Expression("5")]);
    assert AssembleStatement(st, 1) == Returns(Statement(None, None, Some(Operation("LD", [Expression("A"), Expression("5")]))));
  }

  /** An operand whose wrapper is empty is dropped, so the operation has one operand fewer. */
  lemma EmptyOperandDropped()
    ensures Parse(Root([ParseTree.Node(ParseTree.Statement, "JP", [
                          ParseTree.Node(ParseTree.Operation, "JP", [
                            Leaf(ParseTree.Instruction, "JP"),
                            ParseTree.Node(ParseTree.Expression, "", [Leaf(ParseTree.Label, "")])])])]))
            == Success(Program([Statement(None, None, Some(Operation("JP", [])))]))
  {
    var e := ParseTree.Node(ParseTree.Expression, "", [Leaf(ParseTree.Label, "")]);
    var op := ParseTree.Node(ParseTree.Operation, "JP", [Leaf(ParseTree.Instruction, "JP"), e]);
    var st := ParseTree.Node(ParseTree.Statement, "JP", [op]);
    var root := ParseTree.Node(ParseTree.Program, "", [st]);
    assert ExprToString(e.children[0]) == None;
    assert ExprToString(e) == None;
    assert BuildAst(e) == Returns(None);
    assert AssembleOperation(op, 1) == OperationDraft(Some("JP"), []);
    assert AssembleOperation(op, 2) == OperationDraft(Some("JP"), []);
    assert BuildAst(op) == Returns(Some(OperationAst(Operation("JP", []))));
    assert AssembleStatement(st, 1) == Returns(Statement(None, None, Some(Operation("JP", []))));
    assert root.children[0] == st;
    assert CollectStatements(root, 0) == Returns([]);
    assert [] + [Statement(None, None, Some(Operation("JP", [])))] == [Statement(None, None, Some(Operation("JP", [])))];
    assert BuildAst(st) == Returns(Some(StatementAst(Statement(None, None, Some(Operation("JP", []))))));
    assert CollectStatements(root, 1) == Returns([Statement(None, None, Some(Operation("JP", [])))]);
    assert BuildAst(root) == Returns(Some(ProgramAst(Program([Statement(None, None, Some(Operation("JP", [])))]))));
  }

  /** An operation without an instruction name makes the whole parse fail. */
  lemma MissingInstructionFails()
    ensures Parse(Root([ParseTree.Node(ParseTree.Statement, "A", [
                          ParseTree.Node(ParseTree.Operation, "A", [Operand(ParseTree.Register, ParseTree.Other("reg8"), "A")])])]))
            == Failure(MalformedOperation)
  {
    var op := ParseTree.Node(ParseTree.Operation, "A", [Operand(ParseTree.Register, ParseTree.Other("reg8"), "A")]);
    var st := ParseTree.Node(ParseTree.Statement, "A", [op]);
    var root := ParseTree.Node(ParseTree.Program, "", [st]);
    assert AssembleOperation(op, 1).instruction == None;
    assert BuildAst(op) == Panics;
    assert AssembleStatement(st, 1) == Panics;
    assert root.children[0] == st;
    assert CollectStatements(root, 1) == Panics;
  }
}
