/** The parse nodes of a rule's left-hand side, and which variable references are in scope. */
module LhsNodes {
  import opened NandGroups

  datatype NodeType =
    | PATTERN_CE | TEST_CE | SF_VARIABLE | MF_VARIABLE | GBL_VARIABLE
    | FCALL | GCALL | PCALL | PREDICATE_CONSTRAINT | RETURN_VALUE_CONSTRAINT | LITERAL | OTHER

  datatype Value = NoValue | Name(name: string)

  class LhsParseNode {
    const type_: NodeType
    const value: Value
    const negated: bool
    const exists_: bool
    const multifieldSlot: bool
    const beginNandDepth: int
    const endNandDepth: int
    const pattern: int
    const patternType: int
    const expression: LhsParseNode?
    const right: LhsParseNode?
    const bottom: LhsParseNode?
    var referringNode: LhsParseNode?

    // The tests made for the join network.
    var networkTest: Expr
    var externalNetworkTest: Expr
    var externalLeftHash: seq<nat>
    var externalRightHash: seq<nat>

    /** The number of the conditional element the node belongs to, counted along the bottom links. */
    ghost const ce: nat
    /** The node is a field within a multifield slot. */
    ghost const inner: bool
    /** Greater than that of every node below. */
    ghost const height: nat

    ghost predicate IsCE() { type_ == PATTERN_CE || type_ == TEST_CE }

    predicate IsVariable() { type_ == SF_VARIABLE || type_ == MF_VARIABLE }

    predicate IsCall() { type_ == FCALL || type_ == GCALL || type_ == PCALL }

    constructor (t: NodeType, v: Value, below: (LhsParseNode?, LhsParseNode?, LhsParseNode?), depths: (int, int),
                 flags: (bool, bool, bool), origin: (int, int), ghost place: (nat, bool, nat))
    {
      type_, value := t, v;
      expression, right, bottom := below.0, below.1, below.2;
      beginNandDepth, endNandDepth := depths.0, depths.1;
      negated, exists_, multifieldSlot := flags.0, flags.1, flags.2;
      pattern, patternType := origin.0, origin.1;
      referringNode := null;
      networkTest, externalNetworkTest, externalLeftHash, externalRightHash := NoExpr, NoExpr, [], [];
      ce, inner, height := place.0, place.1, place.2;
    }
  }

  // ------------------------------------------------------------------------------------------
  // Well-formed left-hand sides
  // ------------------------------------------------------------------------------------------

  ghost predicate Below(nodes: set<LhsParseNode>, n: LhsParseNode, m: LhsParseNode?) {
    m != null ==> m in nodes && m.height < n.height
  }

  /** The links of one node. Conditional elements hang together by their bottom links. */
  ghost predicate NodeFormed(nodes: set<LhsParseNode>, ces: seq<LhsParseNode>, n: LhsParseNode) {
    && Below(nodes, n, n.right) && Below(nodes, n, n.bottom) && Below(nodes, n, n.expression)
    && n.ce < |ces| && (n.IsCE() <==> ces[n.ce] == n)
    && (n.right != null ==> !n.right.IsCE() && n.right.ce == n.ce)
    && (n.expression != null ==> !n.expression.IsCE() && n.expression.ce == n.ce)
    && (n.bottom != null && n.IsCE() ==> n.bottom.IsCE() && n.bottom.ce == n.ce + 1)
    && (n.bottom != null && !n.IsCE() ==> !n.bottom.IsCE() && n.bottom.ce == n.ce)
    && (n.IsCE() ==> !n.multifieldSlot && !n.inner)
    && (n.right != null ==> n.right.inner == n.inner)
    && (n.multifieldSlot ==> !n.inner)
    && (n.IsVariable() ==> n.value != NoValue && n.expression == null)
    && (n.multifieldSlot && n.bottom != null ==> n.bottom.inner)
  }

  ghost predicate Formed(nodes: set<LhsParseNode>, ces: seq<LhsParseNode>) {
    && (forall n :: n in nodes ==> NodeFormed(nodes, ces, n))
    && (forall i :: 0 <= i < |ces| ==> ces[i] in nodes && ces[i].ce == i && ces[i].IsCE())
    && (forall i :: 0 <= i < |ces| ==> ces[i].bottom == if i + 1 < |ces| then ces[i + 1] else null)
  }

  // ------------------------------------------------------------------------------------------
  // Scope
  // ------------------------------------------------------------------------------------------

  /** What a pattern binds is seen by later conditional elements. */
  ghost predicate Open(head: LhsParseNode) {
    !head.negated && !head.exists_ && head.beginNandDepth <= head.endNandDepth
  }

  /** No element from `from` up to, not including, `upto` closes below the depth. */
  ghost predicate StaysIn(ces: seq<LhsParseNode>, from: int, upto: int, depth: int)
  {
    forall m :: from <= m < upto && 0 <= m < |ces| ==> ces[m].endNandDepth >= depth
  }

  /** Element `j` sees what is bound in element `i`: it is the same one, or a later one that the binding pattern's
      group still encloses. */
  ghost predicate InScope(ces: seq<LhsParseNode>, i: nat, j: nat) {
    i == j || (i < j < |ces| && Open(ces[i]) && StaysIn(ces, i + 1, j, ces[i].beginNandDepth))
  }

  /** `x` is `n` or follows it by right links. */
  ghost predicate InRow(n: LhsParseNode?, x: LhsParseNode)
    decreases if n == null then 0 else n.height + 1
  {
    n != null && (x == n || (n.right != null && n.right.height < n.height && InRow(n.right, x)))
  }

  /** `x` is a field from `n` on: in the row of a pattern, or within one of its multifield slots. */
  ghost predicate InFields(n: LhsParseNode?, x: LhsParseNode)
    decreases if n == null then 0 else n.height + 1
  {
    n != null
    && ((x == n && !n.multifieldSlot)
        || (n.multifieldSlot && InRow(n.bottom, x))
        || (n.right != null && n.right.height < n.height && InFields(n.right, x)))
  }

  /** A field variable, or a pattern with an address. */
  ghost predicate Bindable(b: LhsParseNode) {
    b.value != NoValue && (b.IsVariable() || b.type_ == PATTERN_CE)
  }

  /** `b` is a field of a pattern, or the pattern itself, and binds the name. */
  ghost predicate Binds(nodes: set<LhsParseNode>, ces: seq<LhsParseNode>, b: LhsParseNode, v: Value) {
    && b in nodes && b.ce < |ces| && ces[b.ce].type_ == PATTERN_CE && InFields(ces[b.ce], b)
    && Bindable(b) && b.value == v
  }

  /** Every reference that is set leads to a binding occurrence of the same name that is in scope. */
  ghost predicate Justified(nodes: set<LhsParseNode>, ces: seq<LhsParseNode>)
    reads nodes`referringNode
  {
    forall n :: n in nodes && n.referringNode != null ==>
      Binds(nodes, ces, n.referringNode, n.value) && InScope(ces, n.referringNode.ce, n.ce)
  }

  /** The nodes that propagation from `n` comes to: all below it, but past an element that ends below the depth not
      to the next element. */
  ghost predicate Comes(n: LhsParseNode?, depth: int, x: LhsParseNode)
    decreases if n == null then 0 else n.height + 1
  {
    n != null
    && (x == n
        || (n.expression != null && n.expression.height < n.height && Comes(n.expression, depth, x))
        || (n.right != null && n.right.height < n.height && Comes(n.right, depth, x))
        || (n.bottom != null && n.bottom.height < n.height && !(n.IsCE() && n.endNandDepth < depth)
            && Comes(n.bottom, depth, x)))
  }

  /** `x` is an occurrence of the name that propagation can set. */
  ghost predicate Takes(x: LhsParseNode, v: Value) {
    x.expression == null && x.value == v && (x.IsVariable() || x.type_ == PATTERN_CE)
  }

  /** The reference of an occurrence after `theReference` was propagated to it: a reference that is there stays if it
      comes from another pattern and another kind of pattern. */
  ghost function Updated(x: LhsParseNode, theReference: LhsParseNode, was: LhsParseNode?): LhsParseNode? {
    if x.type_ == PATTERN_CE || was == null || theReference.pattern == x.pattern
       || theReference.patternType == x.patternType then theReference else was
  }

  /** Nodes below a node that is no element belong to the same element; below an element, to it or to a later one,
      none before which closes below the depth. */
  ghost predicate Reaches(ces: seq<LhsParseNode>, start: LhsParseNode, depth: int, n: LhsParseNode) {
    if start.IsCE() then start.ce <= n.ce && StaysIn(ces, start.ce, n.ce, depth)
    else n.ce == start.ce
  }

  lemma {:induction false} ComesReaches(nodes: set<LhsParseNode>, ces: seq<LhsParseNode>, start: LhsParseNode,
                                        depth: int,
                                        x: LhsParseNode)
    requires Formed(nodes, ces) && start in nodes && Comes(start, depth, x)
    ensures x in nodes && Reaches(ces, start, depth, x)
    decreases start.height
  {
    assert NodeFormed(nodes, ces, start);
    if x != start {
      if start.expression != null && start.expression.height < start.height && Comes(start.expression, depth, x) {
        ComesReaches(nodes, ces, start.expression, depth, x);
      } else if start.right != null && start.right.height < start.height && Comes(start.right, depth, x) {
        ComesReaches(nodes, ces, start.right, depth, x);
      } else {
        ComesReaches(nodes, ces, start.bottom, depth, x);
      }
    }
  }
}
