# z80asmparse AST builder, modelled in Dafny

This project models the parse-tree-to-AST transformer of the z80asmparse
crate (`src/ast.rs`). The grammar-driven parser hands it a generic tree of
tagged nodes. The transformer folds that tree into a typed
`Program → Statement → Operation → Expression` syntax tree:

- `build_ast` dispatches on a node's grammar rule and builds at most one node;
- `expr_to_string` reduces an operand to the text of its innermost
  non-wrapper token;
- `parse` runs the parser and keeps the result only if the root builds to a
  program;
- `Statement::operation_name` and `Operation::first_param_as_str` are the two accessors.

Files:

- `parse_tree.dfy` (module `ParseTree`): the tagged tree. `Rule` lists the
  grammar rules the transformer tells apart; any other rule is `Other(name)`.
  `Node(rule, text, children)` stands for a pest pair: its rule, the text it
  spans and its inner pairs, in order.
- `syntax.dfy` (module `Syntax`): the AST types and the two accessors.
  The statement's `label` field is called `labelText`, because `label` is a
  Dafny keyword.
- `builder.dfy` (module `Builder`): `BuildAst`, `ExprToString` and `Parse`.
  Each `for` loop of `build_ast` is a left-to-right fold over the first `k`
  children (`CollectStatements`, `AssembleStatement`, `AssembleOperation`).
  Recursion ends because each call moves to a child, a strict subtree
  (`decreases n, k`).
- `wrappers.dfy` (module `Wrappers`): `Option` and `Result`.
- `unwrapping.dfy` (module `Unwrapping`): properties of operand unwrapping.
- `build_properties.dfy` (module `BuildProperties`): independent descriptions
  of each node case, and the lemmas that tie the builder's loops to them.
  `LastSome` says "the last child that contributes wins". `FilterOf` says
  "the contributing children, in order, with the index each came from".
  `Defective` says where the missing-instruction panic is reached.
- `examples.dfy` (module `Examples`): hand-built trees for a few source lines
  and what the builder makes of them. The grammar is not part of this model,
  so these tree shapes are plausible, not taken from it.

The panic. `build_ast` unwraps the instruction name of an operation
(`instruction.unwrap()`, marked TODO in the source). It panics when an
operation has no `instruction`, `directive` or `specialDirective` child.
The model never invents a default name for that case. Instead, `BuildAst`
returns `Outcome<Option<Ast>>`: either `Returns(v)`, the function's Rust
return value, or `Panics`. Every loop passes `Panics` on, just as the Rust
panic unwinds through every enclosing call. `Parse` turns `Panics` into
`Failure(MalformedOperation)`, where the Rust code panics (unwinds out of `parse`).

## Model

| member | source | states |
|---|---|---|
| Builder.BuildAst | src/ast.rs:17-74 | The kind of node built always matches the rule matched. Program, statement and operation nodes always build to something, unless they panic. Only those three kinds can panic. Any rule other than program, statement, operation or expression builds to nothing. |
| Builder.Parse | src/ast.rs:7-15 | A parser error is passed on unchanged. The result is a success exactly when the first top-level node exists and builds to a program, and that program is the result. A missing root, or a root that builds to anything else, gives `NoProgram`. A panic gives `MalformedOperation`. |
| Builder.ExprToString | src/ast.rs:77-89 | A node without children has no value, and a first child that is not a wrapper gives its own text. The full unwrap rule, both directions, is `Unwrapping.ExprToStringFollowsFirstChildren`. |
| Builder.CollectStatements | src/ast.rs:20-26 | The program loop keeps at most one statement per child. Order, filtering and panics are `BuildProperties.CollectStatementsKept` and `BuildProperties.CollectStatementsPanics`. |
| Builder.AssembleStatement | src/ast.rs:34-45 | With no children seen, the statement loop has set no field. "Last one wins" and panics are `BuildProperties.AssembleStatementFields` and `BuildProperties.AssembleStatementPanics`. |
| Builder.AssembleOperation | src/ast.rs:53-65 | The operation loop adds at most one operand per child, and has a name only after some child. The instruction and operand rules are `BuildProperties.AssembleOperationSpec`. |
| BuildProperties.ParseSuccess | src/ast.rs:7-15 | A successful parse comes from a root tagged `program`. Its statements are that root's statement-building children, in order, and there are at most as many as the root has children. |
| BuildProperties.ParseMalformedIffDefective | src/ast.rs:9-13 | `Parse` reports a malformed operation exactly when the root is defective, that is, when building it reaches an operation without an instruction name. |
| BuildProperties.ProgramBuild | src/ast.rs:19-27 | A program node panics exactly when one of its children panics. Otherwise it builds to a program. Its statements are exactly the children that build to statements, in child order, with every other child dropped, and there are at most as many of them as there are children. |
| BuildProperties.CollectStatementsPanics | src/ast.rs:20-26 | After `k` children, the program loop has panicked exactly when one of those children panics. |
| BuildProperties.CollectStatementsKept | src/ast.rs:20-26 | After `k` children, the program loop holds the statements built from those children, in order. Nothing else is kept, and there are at most `k` of them. |
| BuildProperties.StatementBuild | src/ast.rs:29-47 | A statement node panics exactly when a child it builds (one that is neither a label nor a comment) panics. Otherwise it builds to a statement. Its label is the text of the last `label` child, its comment the text of the last `commentText` child, and its operation the last operation built from another child. Each is None when there is no such child. |
| BuildProperties.AssembleStatementPanics | src/ast.rs:34-45 | After `k` children, the statement loop has panicked exactly when one of the non-label, non-comment children among them panics. |
| BuildProperties.AssembleStatementFields | src/ast.rs:34-45 | After `k` children, label, comment and operation each hold the value from the last child among them that sets it: "last one wins". Each is None if no such child exists. |
| BuildProperties.OperationBuild | src/ast.rs:49-67 | An operation node panics exactly when no child is tagged `instruction`, `directive` or `specialDirective`. Otherwise its name is the text of the last such child. Its operands are the values of the `expression` children that resolve, in child order, and there are no more of them than `expression` children. Children with any other rule have no effect. |
| BuildProperties.AssembleOperationSpec | src/ast.rs:53-65 | After `k` children, the loop's instruction is the text of the last instruction, directive or special directive child. Its operands are the resolved expression children, filtered in order and bounded by the number of expression children. |
| BuildProperties.ExpressionBuild | src/ast.rs:69-71 | An expression node never panics. It builds to `Expression(v)` exactly when unwrapping it gives `v`, and to nothing when unwrapping gives nothing. |
| BuildProperties.PanicsIffDefective | src/ast.rs:17-74 | Building panics exactly on defective trees: an operation without an instruction-name child, or a program or statement that descends into one. |
| Unwrapping.ExprToStringFollowsFirstChildren | src/ast.rs:77-89 | An operand has a value exactly when a chain of first children exists that passes only through `literal`, `label`, `register` and `stringLiteral` wrappers and ends at a non-wrapper node. The value is that node's text. |
| Unwrapping.UnwrapPathSound | src/ast.rs:77-89 | Following such a chain to its end gives the operand's value. |
| Unwrapping.UnwrapPathExists | src/ast.rs:77-89 | Whenever unwrapping gives a value, such a chain exists. |
| Unwrapping.ExprFirstChildOnly | src/ast.rs:78-79 | Unwrapping looks only at the first child. Two nodes with the same first child, or with no children at all, give the same value, whatever their own rule and text. |
| Unwrapping.EmptyWrapperHasNoValue | src/ast.rs:80-88 | A first child that is a wrapper with no children gives no value. It does not give the wrapper's own text. |
| Syntax.OperationName | src/ast.rs:112-114 | The result is present exactly when the statement has an operation, and it is that operation's instruction name. |
| Syntax.FirstParamAsStr | src/ast.rs:124-126 | The result is None exactly when there are no operands, and otherwise it is the value of the first operand. |
| BuildProperties.OperationNameFromTree | src/ast.rs:34-45 | For a statement built from a tree, `OperationName` is present exactly when some non-label, non-comment child builds to an operation, and it is the instruction of the last such child. |
| BuildProperties.FirstParamFromTree | src/ast.rs:53-65 | For an operation built from a tree, `FirstParamAsStr` is None exactly when no expression child resolves, and otherwise it is the value of the first child that does. |
| Examples.LabelOnlyLine | src/ast.rs:29-47 | `LOOP:` builds to a statement with label `LOOP` and no comment or operation. |
| Examples.CommentOnlyLine | src/ast.rs:29-47 | `; hello` builds to a statement with comment `hello` only. |
| Examples.LabelledInstruction | src/ast.rs:29-89 | `START: INC B ; bump` builds to label `START`, instruction `INC`, operands `[B]` (the register unwrapped to its token) and comment `bump`. |
| Examples.LoadInstruction | src/ast.rs:49-89 | `LD A, 5` builds to instruction `LD` with operands `[A, 5]` in order. The separator child has no effect. |
| Examples.EmptyOperandDropped | src/ast.rs:7-89 | An expression whose only wrapper is empty is dropped from the operands, so the operation has one operand fewer than the source text. |
| Examples.MissingInstructionFails | src/ast.rs:7-67 | An operation without an instruction name, nested in a statement of a program, makes `Parse` fail with `MalformedOperation`. |

## Left out

- The pest parser and the `z80asm.pest` grammar (`Z80Parser`, src/lib.rs:5-7) are generated, foreign code. `Parse` takes the parser's result as its input: the top-level nodes, or the parser's error.
- Borrowed `&str` spans, `Cow` and lifetimes: all text is a plain `string`. The model does not track that the AST borrows from the source buffer.
- `anyhow` error values and their message text: errors are the constructors of `ParseError`.
- `#[derive(Debug)]` and formatting.
- The panic at src/ast.rs:67 unwinds out of `parse` in the source. The model returns it as the `Panics` outcome, and `Parse` reports it as `MalformedOperation` instead of unwinding. Nothing else changes: the panic cases are exactly those where the source panics (`PanicsIffDefective`).
- Grammar rules other than the twelve the transformer names are merged into `Other(name)`. The transformer treats them all alike.
- An operand has no value when the expression node has no children, and also when a wrapper on its first-child chain has no children. The model follows the code (`Unwrapping.EmptyWrapperHasNoValue`).
