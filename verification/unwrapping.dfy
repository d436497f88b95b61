/** Properties of operand unwrapping (`Builder.ExprToString`). */
module Unwrapping {
  import opened Wrappers
  import ParseTree
  import opened Builder

  /**
    `path` is the chain of first children followed down from `n`: it starts
    at the first child of `n`, every node but the last is a wrapper whose
    first child comes next, and the last node is not a wrapper.
   */
  ghost predicate UnwrapPath(n: ParseTree.Node, path: seq<ParseTree.Node>)
  {
    && |path| > 0
    && |n.children| > 0
    && path[0] == n.children[0]
    && (forall i :: 0 <= i < |path| - 1 ==>
          path[i].rule.IsWrapper() && |path[i].children| > 0 && path[i + 1] == path[i].children[0])
    && !path[|path| - 1].rule.IsWrapper()
  }

  /** Following an unwrap path, the operand's value is the text at its end. */
  lemma {:induction false} UnwrapPathSound(n: ParseTree.Node, path: seq<ParseTree.Node>)
    requires UnwrapPath(n, path)
    ensures ExprToString(n) == Some(path[|path| - 1].text)
    decreases |path|
  {
    if |path| > 1 {
      var rest := path[1..];
      forall i | 0 <= i < |rest| - 1
        ensures rest[i].rule.IsWrapper() && |rest[i].children| > 0 && rest[i + 1] == rest[i].children[0]
      {
        assert rest[i] == path[i + 1] && rest[i + 1] == path[i + 2];
      }
      assert UnwrapPath(path[0], rest);
      UnwrapPathSound(path[0], rest);
    }
  }

  /** Whenever an operand has a value, an unwrap path leads to it. */
  lemma {:induction false} UnwrapPathExists(n: ParseTree.Node)
    requires ExprToString(n).Some?
    ensures exists path :: UnwrapPath(n, path)
    decreases n
  {
    var e := n.children[0];
    if e.rule.IsWrapper() {
      UnwrapPathExists(e);
      var rest :| UnwrapPath(e, rest);
      var path := [e] + rest;
      forall i | 0 <= i < |path| - 1
        ensures path[i].rule.IsWrapper() && |path[i].children| > 0 && path[i + 1] == path[i].children[0]
      {
        if i > 0 {
          assert path[i] == rest[i - 1] && path[i + 1] == rest[i];
        }
      }
      assert UnwrapPath(n, path);
    } else {
      assert UnwrapPath(n, [e]);
    }
  }

  /**
    The unwrap rule: an operand has a value exactly when the chain of first
    children through wrapper rules ends at a non-wrapper node, and the value
    is that node's text. A wrapper with no children ends the chain without a value.
   */
  lemma ExprToStringFollowsFirstChildren(n: ParseTree.Node)
    ensures ExprToString(n).Some? <==> exists path :: UnwrapPath(n, path)
    ensures forall path: seq<ParseTree.Node> :: UnwrapPath(n, path) ==> ExprToString(n) == Some(path[|path| - 1].text)
  {
    if ExprToString(n).Some? {
      UnwrapPathExists(n);
    }
    forall path: seq<ParseTree.Node> | UnwrapPath(n, path)
      ensures ExprToString(n) == Some(path[|path| - 1].text)
    {
      UnwrapPathSound(n, path);
    }
  }

  /** Only the first child matters; the node's own rule and text do not. */
  lemma ExprFirstChildOnly(n: ParseTree.Node, m: ParseTree.Node)
    requires |n.children| == 0 <==> |m.children| == 0
    requires |n.children| > 0 ==> n.children[0] == m.children[0]
    ensures ExprToString(n) == ExprToString(m)
  {
  }

  /** A wrapper without children yields no value, not the wrapper's own text. */
  lemma EmptyWrapperHasNoValue(n: ParseTree.Node)
    requires |n.children| > 0 && n.children[0].rule.IsWrapper()
    requires |n.children[0].children| == 0
    ensures ExprToString(n) == None
  {
  }
}
