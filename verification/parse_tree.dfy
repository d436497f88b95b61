/**
  The generic tagged tree produced by the grammar-driven parser. Each node
  carries the grammar rule that matched it, the source text it spans and its
  immediate children in source order.
 */
module ParseTree {

  /** The grammar rules the AST builder tells apart; every other rule is `Other`. */
  datatype Rule =
    | Program
    | Statement
    | Label
    | CommentText
    | Operation
    | Instruction
    | Directive
    | SpecialDirective
    | Expression
    | Literal
    | Register
    | StringLiteral
    | Other(name: string)   // any other grammar rule; `name` has no effect on the transformer
  {
    /** Rules that only wrap an operand and carry no value of their own. */
    predicate IsWrapper()
    {
      Literal? || Label? || Register? || StringLiteral?
    }

    /** Rules whose text names the mnemonic or directive of an operation. */
    predicate NamesInstruction()
    {
      Instruction? || Directive? || SpecialDirective?
    }
  }

  datatype Node = Node(rule: Rule, text: string, children: seq<Node>)
}
