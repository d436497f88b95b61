/**
  Independent descriptions of what each case of `Builder.BuildAst` produces,
  and the lemmas that connect the loops of the builder to them.
 */
module BuildProperties {
  import opened Wrappers
  import opened Syntax
  import ParseTree
  import opened Builder

  // ---------------------------------------------------------------------
  // What a single child contributes to its parent
  // ---------------------------------------------------------------------

  /** The statement a program child contributes, if any. */
  function ChildStatement(c: ParseTree.Node): Option<Statement>
  {
    match BuildAst(c)
    case Returns(Some(StatementAst(s))) => Some(s)
    case _ => None
  }

  /** A statement child is built recursively unless it is a label or comment. */
  predicate BuiltByStatement(c: ParseTree.Node)
  {
    !c.rule.Label? && !c.rule.CommentText?
  }

  function ChildLabel(c: ParseTree.Node): Option<string>
  {
    if c.rule.Label? then Some(c.text) else None
  }

  function ChildComment(c: ParseTree.Node): Option<string>
  {
    if c.rule.CommentText? then Some(c.text) else None
  }

  /** The operation a statement child contributes, if any. */
  function ChildOperation(c: ParseTree.Node): Option<Operation>
  {
    if !BuiltByStatement(c) then None
    else
      match BuildAst(c)
      case Returns(Some(OperationAst(o))) => Some(o)
      case _ => None
  }

  function ChildInstruction(c: ParseTree.Node): Option<string>
  {
    if c.rule.NamesInstruction() then Some(c.text) else None
  }

  /** The operand an operation child contributes: an expression child whose value resolves. */
  function ChildParameter(c: ParseTree.Node): Option<Expression>
  {
    if !c.rule.Expression? then None
    else
      match ExprToString(c)
      case Some(v) => Some(Expression(v))
      case None => None
  }

  /** The value after an assignment that happens only when `update` is present. */
  function Override<T>(current: Option<T>, update: Option<T>): Option<T>
  {
    if update.Some? then update else current
  }

  /** The entries an optional contribution appends to a list. */
  function AsSeq<T>(o: Option<T>): seq<T>
  {
    if o.Some? then [o.value] else []
  }

  /** The number of expression children among the first `k`. */
  function ExpressionCount(cs: seq<ParseTree.Node>, k: nat): nat
    requires k <= |cs|
  {
    if k == 0 then 0
    else ExpressionCount(cs, k - 1) + (if cs[k - 1].rule.Expression? then 1 else 0)
  }

  // ---------------------------------------------------------------------
  // Reference descriptions of the two loop shapes
  // ---------------------------------------------------------------------

  /**
    "Last one wins": `o` is what the last of the first `k` children that
    contributes anything contributes, and None when none does.
   */
  ghost predicate LastSome<T>(cs: seq<ParseTree.Node>, k: nat, f: ParseTree.Node -> Option<T>, o: Option<T>)
    requires k <= |cs|
  {
    && (o.None? <==> forall i :: 0 <= i < k ==> f(cs[i]).None?)
    && (o.Some? ==> exists i :: 0 <= i < k && f(cs[i]) == o && forall j :: i < j < k ==> f(cs[j]).None?)
  }

  /**
    "Filter, keeping order": `out` lists what the contributing children among
    the first `k` contribute, and `idx` says which child each entry came from,
    in strictly increasing order. Every contributing child is listed.
   */
  ghost predicate FilterOf<T>(cs: seq<ParseTree.Node>, k: nat, f: ParseTree.Node -> Option<T>, out: seq<T>, idx: seq<nat>)
    requires k <= |cs|
  {
    && |idx| == |out|
    && (forall j :: 0 <= j < |idx| ==> idx[j] < k && f(cs[idx[j]]) == Some(out[j]))
    && (forall j, j' :: 0 <= j < j' < |idx| ==> idx[j] < idx[j'])
    && (forall i :: 0 <= i < k && f(cs[i]).Some? ==> i in idx)
  }

  lemma FilterOfEmpty<T>(cs: seq<ParseTree.Node>, f: ParseTree.Node -> Option<T>)
    ensures FilterOf(cs, 0, f, [], [])
  {
  }

  /** One more child: the filter grows by its contribution, if it has one. */
  lemma FilterOfStep<T>(cs: seq<ParseTree.Node>, k: nat, f: ParseTree.Node -> Option<T>, out: seq<T>, idx: seq<nat>)
    requires k < |cs|
    requires FilterOf(cs, k, f, out, idx)
    ensures f(cs[k]).None? ==> FilterOf(cs, k + 1, f, out, idx)
    ensures f(cs[k]).Some? ==> FilterOf(cs, k + 1, f, out + [f(cs[k]).value], idx + [k])
  {
    if f(cs[k]).None? {
      forall i | 0 <= i < k + 1 && f(cs[i]).Some?
        ensures i in idx
      {
        assert i < k;
      }
    } else {
      var idx' := idx + [k];
      var out' := out + [f(cs[k]).value];
      forall j | 0 <= j < |idx'|
        ensures idx'[j] < k + 1 && f(cs[idx'[j]]) == Some(out'[j])
      {
        if j < |idx| {
          assert idx'[j] == idx[j] && out'[j] == out[j];
        }
      }
      forall i | 0 <= i < k + 1 && f(cs[i]).Some?
        ensures i in idx'
      {
        if i < k {
          assert i in idx;
        } else {
          assert idx'[|idx|] == i;
        }
      }
    }
  }

  /** One more child: a contributing child takes over, any other leaves the result as it was. */
  lemma LastSomeStep<T>(cs: seq<ParseTree.Node>, k: nat, f: ParseTree.Node -> Option<T>, o: Option<T>)
    requires k < |cs|
    requires LastSome(cs, k, f, o)
    ensures f(cs[k]).None? ==> LastSome(cs, k + 1, f, o)
    ensures f(cs[k]).Some? ==> LastSome(cs, k + 1, f, f(cs[k]))
  {
    if f(cs[k]).None? {
      if o.Some? {
        var i :| 0 <= i < k && f(cs[i]) == o && forall j :: i < j < k ==> f(cs[j]).None?;
        assert forall j :: i < j < k + 1 ==> f(cs[j]).None?;
      }
    }
  }

  /** The loop step "assign when the child contributes" keeps LastSome. */
  lemma LastSomeExtend<T>(cs: seq<ParseTree.Node>, k: nat, f: ParseTree.Node -> Option<T>, prev: Option<T>, next: Option<T>)
    requires 0 < k <= |cs|
    requires LastSome(cs, k - 1, f, prev)
    requires next == Override(prev, f(cs[k - 1]))
    ensures LastSome(cs, k, f, next)
  {
    LastSomeStep(cs, k - 1, f, prev);
  }

  /** The loop step "append when the child contributes" keeps FilterOf. */
  lemma FilterOfExtend<T>(cs: seq<ParseTree.Node>, k: nat, f: ParseTree.Node -> Option<T>,
                          prev: seq<T>, idx: seq<nat>, next: seq<T>)
    returns (idx': seq<nat>)
    requires 0 < k <= |cs|
    requires FilterOf(cs, k - 1, f, prev, idx)
    requires next == prev + AsSeq(f(cs[k - 1]))
    ensures FilterOf(cs, k, f, next, idx')
  {
    FilterOfStep(cs, k - 1, f, prev, idx);
    idx' := if f(cs[k - 1]).Some? then idx + [k - 1] else idx;
  }

  /** The first entry of a filter comes from the first contributing child. */
  lemma FilterOfFirst<T>(cs: seq<ParseTree.Node>, k: nat, f: ParseTree.Node -> Option<T>, out: seq<T>, idx: seq<nat>)
    requires k <= |cs|
    requires FilterOf(cs, k, f, out, idx)
    ensures out == [] <==> forall i :: 0 <= i < k ==> f(cs[i]).None?
    ensures out != [] ==> exists i :: 0 <= i < k && f(cs[i]) == Some(out[0]) && forall j :: 0 <= j < i ==> f(cs[j]).None?
  {
    // every contributing child is listed in idx
    assert forall j :: 0 <= j < k && f(cs[j]).Some? ==> j in idx;
    if out != [] {
      var i := idx[0];
      assert f(cs[i]) == Some(out[0]);
      // so no child before the first listed one contributes
      assert forall m :: 0 <= m < |idx| ==> i <= idx[m];
    }
  }

  // ---------------------------------------------------------------------
  // The three loops
  // ---------------------------------------------------------------------

  /** One step of the program loop, in terms of what the child contributes. */
  lemma CollectStatementsStep(n: ParseTree.Node, k: nat, ss: seq<Statement>)
    requires 0 < k <= |n.children|
    requires CollectStatements(n, k - 1) == Returns(ss)
    ensures CollectStatements(n, k).Panics? <==> BuildAst(n.children[k - 1]).Panics?
    ensures CollectStatements(n, k).Returns? ==>
              CollectStatements(n, k).value == ss + AsSeq(ChildStatement(n.children[k - 1]))
  {
  }

  /** The program loop panics exactly when one of the children panics. */
  lemma {:induction false} CollectStatementsPanics(n: ParseTree.Node, k: nat)
    requires k <= |n.children|
    ensures CollectStatements(n, k).Panics? <==> exists i :: 0 <= i < k && BuildAst(n.children[i]).Panics?
    decreases k
  {
    if k > 0 {
      CollectStatementsPanics(n, k - 1);
      match CollectStatements(n, k - 1)
      case Panics =>
        assert CollectStatements(n, k).Panics?;
      case Returns(ss) =>
        CollectStatementsStep(n, k, ss);
    }
  }

  /** The program loop keeps, in order, exactly the children that build to statements. */
  lemma {:induction false} CollectStatementsKept(n: ParseTree.Node, k: nat)
    requires k <= |n.children|
    ensures CollectStatements(n, k).Returns? ==>
              && |CollectStatements(n, k).value| <= k
              && exists idx :: FilterOf(n.children, k, ChildStatement, CollectStatements(n, k).value, idx)
    decreases k
  {
    if k == 0 {
      FilterOfEmpty(n.children, ChildStatement);
    } else {
      CollectStatementsKept(n, k - 1);
      match CollectStatements(n, k - 1)
      case Panics =>
        assert CollectStatements(n, k).Panics?;
      case Returns(ss) =>
        CollectStatementsStep(n, k, ss);
        if CollectStatements(n, k).Returns? {
          var idx: seq<nat> :| FilterOf(n.children, k - 1, ChildStatement, ss, idx);
          var idx' := FilterOfExtend(n.children, k, ChildStatement, ss, idx, CollectStatements(n, k).value);
        }
    }
  }

  /** One step of the statement loop, in terms of what the child contributes. */
  lemma AssembleStatementStep(n: ParseTree.Node, k: nat, s: Statement)
    requires 0 < k <= |n.children|
    requires AssembleStatement(n, k - 1) == Returns(s)
    ensures AssembleStatement(n, k).Panics? <==> BuiltByStatement(n.children[k - 1]) && BuildAst(n.children[k - 1]).Panics?
    ensures AssembleStatement(n, k).Returns? ==>
              && AssembleStatement(n, k).value.labelText == Override(s.labelText, ChildLabel(n.children[k - 1]))
              && AssembleStatement(n, k).value.comment == Override(s.comment, ChildComment(n.children[k - 1]))
              && AssembleStatement(n, k).value.operation == Override(s.operation, ChildOperation(n.children[k - 1]))
  {
  }

  /** The statement loop panics exactly when a child it builds panics. */
  lemma {:induction false} AssembleStatementPanics(n: ParseTree.Node, k: nat)
    requires k <= |n.children|
    ensures AssembleStatement(n, k).Panics? <==>
              exists i :: 0 <= i < k && BuiltByStatement(n.children[i]) && BuildAst(n.children[i]).Panics?
    decreases k
  {
    if k > 0 {
      AssembleStatementPanics(n, k - 1);
      match AssembleStatement(n, k - 1)
      case Panics =>
        assert AssembleStatement(n, k).Panics?;
      case Returns(s) =>
        AssembleStatementStep(n, k, s);
    }
  }

  /** The statement loop keeps the last label, the last comment and the last operation. */
  lemma {:induction false} AssembleStatementFields(n: ParseTree.Node, k: nat)
    requires k <= |n.children|
    ensures AssembleStatement(n, k).Returns? ==>
              && LastSome(n.children, k, ChildLabel, AssembleStatement(n, k).value.labelText)
              && LastSome(n.children, k, ChildComment, AssembleStatement(n, k).value.comment)
              && LastSome(n.children, k, ChildOperation, AssembleStatement(n, k).value.operation)
    decreases k
  {
    if k > 0 {
      AssembleStatementFields(n, k - 1);
      match AssembleStatement(n, k - 1)
      case Panics =>
        assert AssembleStatement(n, k).Panics?;
      case Returns(s) =>
        AssembleStatementStep(n, k, s);
        if AssembleStatement(n, k).Returns? {
          var t := AssembleStatement(n, k).value;
          LastSomeExtend(n.children, k, ChildLabel, s.labelText, t.labelText);
          LastSomeExtend(n.children, k, ChildComment, s.comment, t.comment);
          LastSomeExtend(n.children, k, ChildOperation, s.operation, t.operation);
        }
    }
  }

  /** One step of the operation loop, in terms of what the child contributes. */
  lemma AssembleOperationStep(n: ParseTree.Node, k: nat)
    requires 0 < k <= |n.children|
    ensures AssembleOperation(n, k).instruction ==
              Override(AssembleOperation(n, k - 1).instruction, ChildInstruction(n.children[k - 1]))
    ensures AssembleOperation(n, k).parameters ==
              AssembleOperation(n, k - 1).parameters + AsSeq(ChildParameter(n.children[k - 1]))
  {
    var c := n.children[k - 1];
    if c.rule.Expression? {
      ExpressionBuild(c);
    }
  }

  /** The operation loop: last instruction name; operands filtered from expression children. */
  lemma {:induction false} AssembleOperationSpec(n: ParseTree.Node, k: nat)
    requires k <= |n.children|
    ensures LastSome(n.children, k, ChildInstruction, AssembleOperation(n, k).instruction)
    ensures exists idx :: FilterOf(n.children, k, ChildParameter, AssembleOperation(n, k).parameters, idx)
    ensures |AssembleOperation(n, k).parameters| <= ExpressionCount(n.children, k)
    decreases k
  {
    if k == 0 {
      FilterOfEmpty(n.children, ChildParameter);
    } else {
      AssembleOperationSpec(n, k - 1);
      AssembleOperationStep(n, k);
      var d := AssembleOperation(n, k - 1);
      var d' := AssembleOperation(n, k);
      LastSomeExtend(n.children, k, ChildInstruction, d.instruction, d'.instruction);
      var idx: seq<nat> :| FilterOf(n.children, k - 1, ChildParameter, d.parameters, idx);
      var idx' := FilterOfExtend(n.children, k, ChildParameter, d.parameters, idx, d'.parameters);
      assert |AsSeq(ChildParameter(n.children[k - 1]))| <= (if n.children[k - 1].rule.Expression? then 1 else 0);
    }
  }

  // ---------------------------------------------------------------------
  // The node cases of BuildAst
  // ---------------------------------------------------------------------

  /**
    A program node builds to a program whose statements are the children that
    build to statements, in child order, all others dropped; it panics exactly
    when one of its children does.
   */
  lemma ProgramBuild(n: ParseTree.Node)
    requires n.rule.Program?
    ensures BuildAst(n).Panics? <==> exists i :: 0 <= i < |n.children| && BuildAst(n.children[i]).Panics?
    ensures BuildAst(n).Returns? ==>
              && BuildAst(n).value.Some? && BuildAst(n).value.value.ProgramAst?
              && |BuildAst(n).value.value.program.statements| <= |n.children|
              && exists idx :: FilterOf(n.children, |n.children|, ChildStatement,
                                        BuildAst(n).value.value.program.statements, idx)
  {
    CollectStatementsPanics(n, |n.children|);
    CollectStatementsKept(n, |n.children|);
  }

  /**
    A statement node builds to a statement holding the text of its last label
    child, the text of its last comment child and the last operation built
    from its other children; it panics exactly when one of those others does.
   */
  lemma StatementBuild(n: ParseTree.Node)
    requires n.rule.Statement?
    ensures BuildAst(n).Panics? <==>
              exists i :: 0 <= i < |n.children| && BuiltByStatement(n.children[i]) && BuildAst(n.children[i]).Panics?
    ensures BuildAst(n).Returns? ==>
              && BuildAst(n).value.Some? && BuildAst(n).value.value.StatementAst?
              && LastSome(n.children, |n.children|, ChildLabel, BuildAst(n).value.value.statement.labelText)
              && LastSome(n.children, |n.children|, ChildComment, BuildAst(n).value.value.statement.comment)
              && LastSome(n.children, |n.children|, ChildOperation, BuildAst(n).value.value.statement.operation)
  {
    AssembleStatementPanics(n, |n.children|);
    AssembleStatementFields(n, |n.children|);
  }

  /**
    An operation node panics exactly when no child is an instruction,
    directive or special directive. Otherwise its name is the text of the last
    such child, and its operands are the resolved expression children, in
    order; children of any other rule have no effect.
   */
  lemma OperationBuild(n: ParseTree.Node)
    requires n.rule.Operation?
    ensures BuildAst(n).Panics? <==> forall i :: 0 <= i < |n.children| ==> !n.children[i].rule.NamesInstruction()
    ensures BuildAst(n).Returns? ==>
              && BuildAst(n).value.Some? && BuildAst(n).value.value.OperationAst?
              && LastSome(n.children, |n.children|, ChildInstruction, Some(BuildAst(n).value.value.operation.instruction))
              && |BuildAst(n).value.value.operation.parameters| <= ExpressionCount(n.children, |n.children|)
              && exists idx :: FilterOf(n.children, |n.children|, ChildParameter,
                                        BuildAst(n).value.value.operation.parameters, idx)
  {
    AssembleOperationSpec(n, |n.children|);
    var d := AssembleOperation(n, |n.children|);
    if d.instruction.None? {
      forall i | 0 <= i < |n.children|
        ensures !n.children[i].rule.NamesInstruction()
      {
        assert ChildInstruction(n.children[i]).None?;
      }
    } else {
      var i :| 0 <= i < |n.children| && ChildInstruction(n.children[i]) == d.instruction;
      assert n.children[i].rule.NamesInstruction();
    }
  }

  /** An expression node never panics, and builds to a value exactly when unwrapping finds one. */
  lemma ExpressionBuild(n: ParseTree.Node)
    requires n.rule.Expression?
    ensures BuildAst(n).Returns?
    ensures BuildAst(n).value.None? <==> ExprToString(n).None?
    ensures ExprToString(n).Some? ==> BuildAst(n).value == Some(ExpressionAst(Expression(ExprToString(n).value)))
  {
  }

  // ---------------------------------------------------------------------
  // The accessors, read against the tree they were built from
  // ---------------------------------------------------------------------

  /**
    For a statement built from node `n`, `OperationName` is present exactly
    when some child builds to an operation, and it names the operation of
    the last such child.
   */
  lemma OperationNameFromTree(n: ParseTree.Node)
    requires n.rule.Statement? && BuildAst(n).Returns?
    ensures BuildAst(n).value.Some? && BuildAst(n).value.value.StatementAst?
    ensures var name := OperationName(BuildAst(n).value.value.statement);
            && (name.Some? <==> exists i :: 0 <= i < |n.children| && ChildOperation(n.children[i]).Some?)
            && (name.Some? ==>
                  exists i :: 0 <= i < |n.children| && ChildOperation(n.children[i]).Some?
                              && ChildOperation(n.children[i]).value.instruction == name.value
                              && forall j :: i < j < |n.children| ==> ChildOperation(n.children[j]).None?)
  {
    StatementBuild(n);
  }

  /**
    For an operation built from node `n`, `FirstParamAsStr` is None exactly
    when no child is a resolving expression, and otherwise it is the value of
    the first such child.
   */
  lemma FirstParamFromTree(n: ParseTree.Node)
    requires n.rule.Operation? && BuildAst(n).Returns?
    ensures BuildAst(n).value.Some? && BuildAst(n).value.value.OperationAst?
    ensures var first := FirstParamAsStr(BuildAst(n).value.value.operation);
            && (first.None? <==> forall i :: 0 <= i < |n.children| ==> ChildParameter(n.children[i]).None?)
            && (first.Some? ==>
                  exists i :: 0 <= i < |n.children| && ChildParameter(n.children[i]) == Some(Expression(first.value))
                              && forall j :: 0 <= j < i ==> ChildParameter(n.children[j]).None?)
  {
    OperationBuild(n);
    var ps := BuildAst(n).value.value.operation.parameters;
    var idx: seq<nat> :| FilterOf(n.children, |n.children|, ChildParameter, ps, idx);
    FilterOfFirst(n.children, |n.children|, ChildParameter, ps, idx);
  }

  // ---------------------------------------------------------------------
  // Where the missing-instruction panic comes from
  // ---------------------------------------------------------------------

  /**
    The builder reaches an operation without an instruction name: the node is
    such an operation, or it is a program or statement with a child the
    builder descends into that reaches one.
   */
  ghost predicate Defective(n: ParseTree.Node)
    decreases n
  {
    if n.rule.Program? then
      exists i :: 0 <= i < |n.children| && Defective(n.children[i])
    else if n.rule.Statement? then
      exists i :: 0 <= i < |n.children| && BuiltByStatement(n.children[i]) && Defective(n.children[i])
    else if n.rule.Operation? then
      forall i :: 0 <= i < |n.children| ==> !n.children[i].rule.NamesInstruction()
    else
      false
  }

  /** The builder panics exactly on defective trees. */
  lemma {:induction false} PanicsIffDefective(n: ParseTree.Node)
    ensures BuildAst(n).Panics? <==> Defective(n)
    decreases n
  {
    if n.rule.Program? || n.rule.Statement? {
      forall i | 0 <= i < |n.children|
        ensures BuildAst(n.children[i]).Panics? <==> Defective(n.children[i])
      {
        PanicsIffDefective(n.children[i]);
      }
      if n.rule.Program? {
        ProgramBuild(n);
      } else {
        StatementBuild(n);
      }
    } else if n.rule.Operation? {
      OperationBuild(n);
    }
  }

  // ---------------------------------------------------------------------
  // Parse
  // ---------------------------------------------------------------------

  /**
    A successful parse comes from a root tagged program, and its statements
    are that root's statement children, in order.
   */
  lemma ParseSuccess<E>(parsed: Result<seq<ParseTree.Node>, E>, p: Program)
    requires Parse(parsed) == Success(p)
    ensures parsed.Success? && |parsed.value| > 0 && parsed.value[0].rule.Program?
    ensures |p.statements| <= |parsed.value[0].children|
    ensures exists idx :: FilterOf(parsed.value[0].children, |parsed.value[0].children|, ChildStatement, p.statements, idx)
  {
    ProgramBuild(parsed.value[0]);
  }

  /** Parse reports a malformed operation exactly when the root is defective. */
  lemma ParseMalformedIffDefective<E>(parsed: Result<seq<ParseTree.Node>, E>)
    ensures Parse(parsed) == Failure(MalformedOperation) <==>
              parsed.Success? && |parsed.value| > 0 && Defective(parsed.value[0])
  {
    if parsed.Success? && |parsed.value| > 0 {
      PanicsIffDefective(parsed.value[0]);
    }
  }
}
