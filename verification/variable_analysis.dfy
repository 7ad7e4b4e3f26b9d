/** The analysis of the variables of a rule's left-hand side. */
module VariableAnalysis {
  import opened LhsNodes
  import opened NandGroups

  // ------------------------------------------------------------------------------------------
  // Propagation
  // ------------------------------------------------------------------------------------------

  ghost predicate Touched(x: LhsParseNode, start: LhsParseNode?, depth: int, v: Value) {
    Comes(start, depth, x) && Takes(x, v)
  }

  /** What lies below one node. */
  lemma Down(nodes: set<LhsParseNode>, ces: seq<LhsParseNode>, n: LhsParseNode, depth: int)
    requires Formed(nodes, ces) && n in nodes
    ensures Below(nodes, n, n.right) && Below(nodes, n, n.bottom) && Below(nodes, n, n.expression)
    ensures n.right != null ==> !n.right.IsCE()
    ensures n.expression != null ==> !n.expression.IsCE()
    ensures n.bottom != null ==> n.bottom.IsCE() == n.IsCE()
    ensures n.IsVariable() ==> !n.IsCE() && n.expression == null
    ensures forall x :: x in nodes ==>
      (Comes(n, depth, x)
       <==> (x == n || Comes(n.expression, depth, x) || Comes(n.right, depth, x)
             || (!(n.IsCE() && n.endNandDepth < depth) && Comes(n.bottom, depth, x))))
  {
    assert NodeFormed(nodes, ces, n);
  }

  /** An occurrence of the name with which a variable of the given type may not be mixed: within expressions, and on
      behalf of tests, single- and multifield variables may stand for each other. */
  ghost predicate Clash(x: LhsParseNode, theType: NodeType, v: Value, assign: bool, ignore: bool) {
    && x.expression == null && x.value == v
    && ((!ignore && theType == SF_VARIABLE && x.type_ == MF_VARIABLE)
        || (!ignore && theType == MF_VARIABLE && x.type_ == SF_VARIABLE)
        || (assign && theType == MF_VARIABLE && x.type_ == PATTERN_CE))
  }

  /** The nodes that propagation comes to without entering an expression. */
  ghost predicate Meets(n: LhsParseNode?, depth: int, x: LhsParseNode)
    decreases if n == null then 0 else n.height + 1
  {
    n != null
    && (x == n
        || (n.right != null && n.right.height < n.height && Meets(n.right, depth, x))
        || (n.bottom != null && n.bottom.height < n.height && !(n.IsCE() && n.endNandDepth < depth)
            && Meets(n.bottom, depth, x)))
  }

  ghost predicate Mixes(nodes: set<LhsParseNode>, n: LhsParseNode?, theType: NodeType, v: Value, depth: int,
                        assign: bool,
                        ignore: bool) {
    exists x :: x in nodes && Meets(n, depth, x) && Clash(x, theType, v, assign, ignore)
  }

  lemma MixesDown(nodes: set<LhsParseNode>, ces: seq<LhsParseNode>, n: LhsParseNode, theType: NodeType, v: Value,
                  depth: int, assign: bool, ignore: bool)
    requires Formed(nodes, ces) && n in nodes
    ensures Mixes(nodes, n, theType, v, depth, assign, ignore) <==>
      || Clash(n, theType, v, assign, ignore)
      || Mixes(nodes, n.right, theType, v, depth, assign, ignore)
      || (!(n.IsCE() && n.endNandDepth < depth) && Mixes(nodes, n.bottom, theType, v, depth, assign, ignore))
  {
    hide Clash;
    assert NodeFormed(nodes, ces, n);
  }

  /** The nodes that propagation comes to before it meets a variable of the other kind, which ends it: first what is
      below a node by its right link, then what is below it by its bottom link. */
  ghost predicate Gets(nodes: set<LhsParseNode>, n: LhsParseNode?, theType: NodeType, v: Value, depth: int,
                       assign: bool, ignore: bool, x: LhsParseNode)
    decreases if n == null then 0 else n.height + 1
  {
    n != null && !Clash(n, theType, v, assign, ignore)
    && (x == n || (n.expression != null && n.expression.height < n.height && Comes(n.expression, depth, x))
        || (n.right != null && n.right.height < n.height
            && Gets(nodes, n.right, theType, v, depth, assign, ignore, x))
        || (n.bottom != null && n.bottom.height < n.height && !(n.IsCE() && n.endNandDepth < depth)
            && !Mixes(nodes, n.right, theType, v, depth, assign, ignore)
            && Gets(nodes, n.bottom, theType, v, depth, assign, ignore, x)))
  }

  /** Those at the node itself and what its right link leads to. */
  ghost predicate GetsAt(nodes: set<LhsParseNode>, n: LhsParseNode, theType: NodeType, v: Value, depth: int,
                         assign: bool, ignore: bool, x: LhsParseNode) {
    !Clash(n, theType, v, assign, ignore)
    && (x == n || Comes(n.expression, depth, x) || Gets(nodes, n.right, theType, v, depth, assign, ignore, x))
  }

  lemma GetsDown(nodes: set<LhsParseNode>, ces: seq<LhsParseNode>, n: LhsParseNode, theType: NodeType, v: Value,
                 depth: int, assign: bool, ignore: bool)
    requires Formed(nodes, ces) && n in nodes
    ensures forall x :: x in nodes ==>
      (Gets(nodes, n, theType, v, depth, assign, ignore, x)
       <==> (GetsAt(nodes, n, theType, v, depth, assign, ignore, x)
             || (!Clash(n, theType, v, assign, ignore) && !(n.IsCE() && n.endNandDepth < depth)
                 && !Mixes(nodes, n.right, theType, v, depth, assign, ignore)
                 && Gets(nodes, n.bottom, theType, v, depth, assign, ignore, x))))
  {
    hide Clash, Mixes;
    assert NodeFormed(nodes, ces, n);
  }

  lemma NothingGot(nodes: set<LhsParseNode>, theType: NodeType, v: Value, depth: int, assign: bool, ignore: bool)
    ensures forall x :: !Gets(nodes, null, theType, v, depth, assign, ignore, x)
    ensures AllGot(nodes, null, theType, v, depth, assign, ignore) == {}
  {
  }

  /** Where no kinds are mixed that is all that it comes to. */
  lemma {:induction false} GetsIs(nodes: set<LhsParseNode>, ces: seq<LhsParseNode>, n: LhsParseNode?,
                                  theType: NodeType, v: Value, depth: int, assign: bool, ignore: bool,
                                  x: LhsParseNode)
    requires Formed(nodes, ces) && (n != null ==> n in nodes) && x in nodes
    ensures Gets(nodes, n, theType, v, depth, assign, ignore, x) ==> Comes(n, depth, x)
    ensures !Mixes(nodes, n, theType, v, depth, assign, ignore) && Comes(n, depth, x) ==>
      Gets(nodes, n, theType, v, depth, assign, ignore, x)
    decreases if n == null then 0 else n.height + 1
  {
    hide Clash, Mixes, Gets, Comes;
    if n == null {
      NoneBelow(depth);
      NothingGot(nodes, theType, v, depth, assign, ignore);
    } else {
      Down(nodes, ces, n, depth);
      GetsDown(nodes, ces, n, theType, v, depth, assign, ignore);
      MixesDown(nodes, ces, n, theType, v, depth, assign, ignore);
      GetsIs(nodes, ces, n.right, theType, v, depth, assign, ignore, x);
      GetsIs(nodes, ces, n.bottom, theType, v, depth, assign, ignore, x);
    }
  }

  /** What becomes of a reference when propagation of `b` reaches the occurrence or does not. */
  ghost function Given(reached: bool, x: LhsParseNode, b: LhsParseNode?, was: LhsParseNode?): LhsParseNode? {
    if reached && b != null then Updated(x, b, was) else was
  }

  /** The reference of one occurrence. */
  method Assign(theNode: LhsParseNode, theReference: LhsParseNode)
    requires theNode.IsVariable()
    modifies theNode`referringNode
    ensures theNode.referringNode == Updated(theNode, theReference, old(theNode.referringNode))
  {
    if theNode.referringNode == null {
      theNode.referringNode := theReference;
    } else if theReference.pattern == theNode.pattern {
      theNode.referringNode := theReference;
    } else if theReference.patternType == theNode.patternType {
      theNode.referringNode := theReference;
    }
  }

  lemma UpdatedOnce(theReference: LhsParseNode?)
    ensures theReference != null ==>
      forall x: LhsParseNode, was: LhsParseNode? {:trigger Updated(x, theReference, was)} ::
        && (x.type_ == PATTERN_CE ==> Updated(x, theReference, was) == theReference)
        && Updated(x, theReference, Updated(x, theReference, was)) == Updated(x, theReference, was)
  {
  }

  /** One node: its expression, or its own reference. TRUE when kinds of variables are mixed. */
  method PropagateToNode(theNode: LhsParseNode, theType: NodeType, variableName: Value, theReference: LhsParseNode?,
                         startDepth: int, assignReference: bool, ignoreVariableTypes: bool,
                         ghost nodes: set<LhsParseNode>, ghost ces: seq<LhsParseNode>)
    returns (mixed: bool)
    requires Formed(nodes, ces) && theNode in nodes && (assignReference ==> theReference != null)
    modifies nodes`referringNode
    ensures forall x :: x in nodes ==>
      x.referringNode == Given(assignReference && !mixed && OfNode(x, theNode, startDepth, variableName), x,
                               theReference, old(x.referringNode))
    ensures mixed <==> Clash(theNode, theType, variableName, assignReference, ignoreVariableTypes)
    decreases theNode.height + 1, 0
  {
    hide Formed, Comes, Updated, Gets, Mixes;
    Down(nodes, ces, theNode, startDepth);
    NoneBelow(startDepth);
    UpdatedOnce(theReference);
    if theNode.expression != null {
      forall x | x in nodes
        ensures Gets(nodes, theNode.expression, theType, variableName, startDepth, assignReference, true, x)
           <==> Comes(theNode.expression, startDepth, x)
      {
        GetsIs(nodes, ces, theNode.expression, theType, variableName, startDepth, assignReference, true, x);
        NeverMixes(nodes, ces, theNode.expression, theType, variableName, startDepth, assignReference);
      }
      var ignored := PropagateVariableToNodes(theNode.expression, theType, variableName, theReference, startDepth,
                                              assignReference, true, nodes, ces);
    } else if theNode.IsVariable() && theNode.value == variableName {
      if !ignoreVariableTypes {
        if (theType == SF_VARIABLE && theNode.type_ == MF_VARIABLE)
           || (theType == MF_VARIABLE && theNode.type_ == SF_VARIABLE) {
          return true;
        }
      }
      if assignReference {
        Assign(theNode, theReference);
      }
    } else if theNode.type_ == PATTERN_CE && theNode.value == variableName && assignReference {
      if theType == MF_VARIABLE {
        return true;
      }
      theNode.referringNode := theReference;
    }
    return false;
  }

  /** Where the kinds of variables are ignored, none below a node that is no element are mixed. */
  lemma {:induction false} NeverMixes(nodes: set<LhsParseNode>, ces: seq<LhsParseNode>, n: LhsParseNode?,
                                      theType: NodeType, v: Value, depth: int, assign: bool)
    requires Formed(nodes, ces) && (n != null ==> n in nodes && !n.IsCE())
    ensures !Mixes(nodes, n, theType, v, depth, assign, true)
    decreases if n == null then 0 else n.height + 1
  {
    hide Mixes, Clash, Comes;
    MixesNone(nodes, theType, v, depth, assign, true);
    if n != null {
      Down(nodes, ces, n, depth);
      MixesDown(nodes, ces, n, theType, v, depth, assign, true);
      ClashKinds(n, theType, v, assign, true);
      NeverMixes(nodes, ces, n.right, theType, v, depth, assign);
      NeverMixes(nodes, ces, n.bottom, theType, v, depth, assign);
    }
  }

  ghost predicate OfNode(x: LhsParseNode, n: LhsParseNode, depth: int, v: Value) {
    (x == n || Comes(n.expression, depth, x)) && Takes(x, v)
  }

  /** One node, and what its right link leads to. */
  method PropagateAt(cur: LhsParseNode, theType: NodeType, variableName: Value, theReference: LhsParseNode?,
                     startDepth: int, assignReference: bool, ignoreVariableTypes: bool,
                     ghost nodes: set<LhsParseNode>, ghost ces: seq<LhsParseNode>)
    returns (mixed: bool)
    requires Formed(nodes, ces) && cur in nodes && (assignReference ==> theReference != null)
    modifies nodes`referringNode
    ensures forall x :: x in nodes ==>
      x.referringNode
      == Given(assignReference && Takes(x, variableName)
               && x in AllAt(nodes, cur, theType, variableName, startDepth, assignReference, ignoreVariableTypes),
               x, theReference, old(x.referringNode))
    ensures mixed <==> Stops(nodes, cur, theType, variableName, startDepth, assignReference, ignoreVariableTypes)
    decreases cur.height + 1, 1
  {
    hide Formed, Comes, Updated, Takes, Mixes, Clash, Gets;
    Down(nodes, ces, cur, startDepth);
    NothingGot(nodes, theType, variableName, startDepth, assignReference, ignoreVariableTypes);
    MixesNone(nodes, theType, variableName, startDepth, assignReference, ignoreVariableTypes);
    UpdatedOnce(theReference);
    mixed := PropagateToNode(cur, theType, variableName, theReference, startDepth, assignReference,
                             ignoreVariableTypes, nodes, ces);
    if !mixed && cur.right != null {
      mixed := PropagateVariableToNodes(cur.right, theType, variableName, theReference, startDepth, assignReference,
                                        ignoreVariableTypes, nodes, ces);
    }
  }

  ghost function AllGot(nodes: set<LhsParseNode>, n: LhsParseNode?, theType: NodeType, v: Value, depth: int,
                        assign: bool, ignore: bool): set<LhsParseNode> {
    set x | x in nodes && Gets(nodes, n, theType, v, depth, assign, ignore, x)
  }

  ghost function AllAt(nodes: set<LhsParseNode>, n: LhsParseNode, theType: NodeType, v: Value, depth: int,
                       assign: bool, ignore: bool): set<LhsParseNode> {
    set x | x in nodes && GetsAt(nodes, n, theType, v, depth, assign, ignore, x)
  }

  /** Where the walk goes on after a node. */
  ghost function BottomOf(n: LhsParseNode, depth: int): LhsParseNode? {
    if (n.type_ == PATTERN_CE || n.type_ == TEST_CE) && n.endNandDepth < depth then null else n.bottom
  }

  lemma BottomIs(n: LhsParseNode, depth: int)
    ensures BottomOf(n, depth)
         == if (n.type_ == PATTERN_CE || n.type_ == TEST_CE) && n.endNandDepth < depth then null else n.bottom
  {
  }

  ghost predicate Stops(nodes: set<LhsParseNode>, n: LhsParseNode, theType: NodeType, v: Value, depth: int,
                        assign: bool, ignore: bool) {
    Clash(n, theType, v, assign, ignore) || Mixes(nodes, n.right, theType, v, depth, assign, ignore)
  }

  lemma MixesNext(nodes: set<LhsParseNode>, ces: seq<LhsParseNode>, n: LhsParseNode, theType: NodeType, v: Value,
                  depth: int, assign: bool, ignore: bool)
    requires Formed(nodes, ces) && n in nodes
    ensures n.bottom != null ==> n.bottom in nodes && n.bottom.height < n.height
    ensures Mixes(nodes, n, theType, v, depth, assign, ignore) <==>
      Stops(nodes, n, theType, v, depth, assign, ignore)
      || Mixes(nodes, BottomOf(n, depth), theType, v, depth, assign, ignore)
  {
    hide Mixes, Clash, Comes;
    MixesNone(nodes, theType, v, depth, assign, ignore);
    Down(nodes, ces, n, depth);
    MixesDown(nodes, ces, n, theType, v, depth, assign, ignore);
  }

  lemma GetsNext(nodes: set<LhsParseNode>, ces: seq<LhsParseNode>, n: LhsParseNode, theType: NodeType, v: Value,
                 depth: int, assign: bool, ignore: bool, x: LhsParseNode)
    requires Formed(nodes, ces) && n in nodes && x in nodes
    ensures Gets(nodes, n, theType, v, depth, assign, ignore, x) <==>
      GetsAt(nodes, n, theType, v, depth, assign, ignore, x)
      || (!Stops(nodes, n, theType, v, depth, assign, ignore)
          && Gets(nodes, BottomOf(n, depth), theType, v, depth, assign, ignore, x))
  {
    hide Mixes, Clash, Gets, GetsAt, Comes;
    NothingGot(nodes, theType, v, depth, assign, ignore);
    GetsDown(nodes, ces, n, theType, v, depth, assign, ignore);
  }

  /** The step from a node along its bottom link. */
  lemma GotNext(nodes: set<LhsParseNode>, ces: seq<LhsParseNode>, n: LhsParseNode, theType: NodeType, v: Value,
                depth: int, assign: bool, ignore: bool)
    requires Formed(nodes, ces) && n in nodes
    ensures AllGot(nodes, n, theType, v, depth, assign, ignore)
         == AllAt(nodes, n, theType, v, depth, assign, ignore)
            + (if Stops(nodes, n, theType, v, depth, assign, ignore) then {}
               else AllGot(nodes, BottomOf(n, depth), theType, v, depth, assign, ignore))
  {
    hide Formed, Stops, Gets, GetsAt, BottomOf;
    forall x | x in nodes
      ensures Gets(nodes, n, theType, v, depth, assign, ignore, x) <==>
        GetsAt(nodes, n, theType, v, depth, assign, ignore, x)
        || (!Stops(nodes, n, theType, v, depth, assign, ignore)
            && Gets(nodes, BottomOf(n, depth), theType, v, depth, assign, ignore, x))
    {
      GetsNext(nodes, ces, n, theType, v, depth, assign, ignore, x);
    }
  }

  lemma GotIs(nodes: set<LhsParseNode>, ces: seq<LhsParseNode>, n: LhsParseNode?, theType: NodeType, v: Value,
              depth: int, assign: bool, ignore: bool, x: LhsParseNode)
    requires Formed(nodes, ces) && (n != null ==> n in nodes) && x in nodes
    ensures x in AllGot(nodes, n, theType, v, depth, assign, ignore) ==> Comes(n, depth, x)
    ensures !Mixes(nodes, n, theType, v, depth, assign, ignore) && Comes(n, depth, x) ==>
      x in AllGot(nodes, n, theType, v, depth, assign, ignore)
  {
    hide Formed, Gets, Comes, Mixes;
    GetsIs(nodes, ces, n, theType, v, depth, assign, ignore, x);
  }

  lemma GivenTwice(b: LhsParseNode?)
    ensures forall x: LhsParseNode, r: bool, q: bool, was: LhsParseNode?
      {:trigger Given(q, x, b, Given(r, x, b, was))} ::
      Given(q, x, b, Given(r, x, b, was)) == Given(q || r, x, b, was)
    ensures forall x: LhsParseNode, was: LhsParseNode? {:trigger Given(false, x, b, was)} ::
      Given(false, x, b, was) == was
    ensures b != null ==>
      forall x: LhsParseNode, was: LhsParseNode? {:trigger Given(true, x, b, was)} :: Given(true, x, b, was) != null
  {
  }

  /** Sets the references of the variable's other occurrences from `start` on; TRUE when single- and multifield
      occurrences are mixed. */
  method PropagateVariableToNodes(start: LhsParseNode?, theType: NodeType, variableName: Value,
                                  theReference: LhsParseNode?, startDepth: int, assignReference: bool,
                                  ignoreVariableTypes: bool,
                                  ghost nodes: set<LhsParseNode>, ghost ces: seq<LhsParseNode>)
    returns (mixed: bool)
    requires Formed(nodes, ces) && (start != null ==> start in nodes) && (assignReference ==> theReference != null)
    modifies nodes`referringNode
    ensures forall x :: x in nodes ==>
      x.referringNode
      == Given(assignReference && Takes(x, variableName)
               && x in AllGot(nodes, start, theType, variableName, startDepth, assignReference, ignoreVariableTypes),
               x, theReference, old(x.referringNode))
    ensures mixed <==> Mixes(nodes, start, theType, variableName, startDepth, assignReference, ignoreVariableTypes)
    decreases if start == null then 0 else start.height + 1, 2
  {
    hide *;
    var theNode := start;
    NothingGot(nodes, theType, variableName, startDepth, assignReference, ignoreVariableTypes);
    MixesNone(nodes, theType, variableName, startDepth, assignReference, ignoreVariableTypes);
    GivenTwice(theReference);
    ghost var done: set<LhsParseNode> := {};
    while theNode != null
      invariant theNode != null ==> theNode in nodes && theNode.height <= start.height
      invariant AllGot(nodes, start, theType, variableName, startDepth, assignReference, ignoreVariableTypes)
             == done + AllGot(nodes, theNode, theType, variableName, startDepth, assignReference, ignoreVariableTypes)
      invariant Mixes(nodes, start, theType, variableName, startDepth, assignReference, ignoreVariableTypes)
           <==> Mixes(nodes, theNode, theType, variableName, startDepth, assignReference, ignoreVariableTypes)
      invariant forall x :: x in nodes ==>
        x.referringNode == Given(assignReference && Takes(x, variableName) && x in done, x, theReference,
                                 old(x.referringNode))
      decreases if theNode == null then 0 else theNode.height + 1
    {
      var cur: LhsParseNode := theNode;
      ghost var now := AllAt(nodes, cur, theType, variableName, startDepth, assignReference, ignoreVariableTypes);
      MixesNext(nodes, ces, cur, theType, variableName, startDepth, assignReference, ignoreVariableTypes);
      GotNext(nodes, ces, cur, theType, variableName, startDepth, assignReference, ignoreVariableTypes);
      BottomIs(cur, startDepth);
      mixed := PropagateAt(cur, theType, variableName, theReference, startDepth, assignReference,
                           ignoreVariableTypes, nodes, ces);
      done := done + now;
      if mixed {
        return true;
      }
      if (cur.type_ == PATTERN_CE || cur.type_ == TEST_CE) && cur.endNandDepth < startDepth {
        theNode := null;
      } else {
        theNode := cur.bottom;
      }
    }
    return false;
  }

  lemma ClashKinds(x: LhsParseNode, theType: NodeType, v: Value, assign: bool, ignore: bool)
    ensures ignore && !x.IsCE() ==> !Clash(x, theType, v, assign, ignore)
  {
  }

  lemma MixesNone(nodes: set<LhsParseNode>, theType: NodeType, v: Value, depth: int, assign: bool, ignore: bool)
    ensures !Mixes(nodes, null, theType, v, depth, assign, ignore)
  {
  }

  lemma NoneBelow(depth: int)
    ensures forall x :: !Comes(null, depth, x)
  {
  }

  // ------------------------------------------------------------------------------------------
  // One binding occurrence
  // ------------------------------------------------------------------------------------------

  /** References once set stay set. */
  twostate predicate Kept(nodes: set<LhsParseNode>)
    reads nodes`referringNode
  {
    forall n :: n in nodes && old(n.referringNode) != null ==> n.referringNode != null
  }

  /** All occurrences of the name from `start` on have a reference. */
  ghost predicate AllSet(nodes: set<LhsParseNode>, start: LhsParseNode?, depth: int, v: Value)
    reads nodes`referringNode
  {
    forall x :: x in nodes && Touched(x, start, depth, v) ==> x.referringNode != null
  }

  /** Propagation to nodes that see the binding occurrence keeps all references justified. */
  method PropagateInScope(start: LhsParseNode?, theType: NodeType, variableName: Value, theReference: LhsParseNode?,
                          startDepth: int, assignReference: bool, ignoreVariableTypes: bool,
                          ghost nodes: set<LhsParseNode>, ghost ces: seq<LhsParseNode>)
    returns (mixed: bool)
    requires Formed(nodes, ces) && Justified(nodes, ces) && (start != null ==> start in nodes)
    requires assignReference ==> theReference != null && Binds(nodes, ces, theReference, variableName)
    requires assignReference && start != null ==>
      forall n :: n in nodes && Reaches(ces, start, startDepth, n) ==> InScope(ces, theReference.ce, n.ce)
    modifies nodes`referringNode
    ensures Justified(nodes, ces) && Kept(nodes) && (!assignReference ==> unchanged(nodes`referringNode))
    ensures !mixed && assignReference ==> AllSet(nodes, start, startDepth, variableName)
    ensures mixed <==> Mixes(nodes, start, theType, variableName, startDepth, assignReference, ignoreVariableTypes)
    ensures forall x :: x in nodes ==>
      x.referringNode
      == Given(assignReference && Takes(x, variableName)
               && x in AllGot(nodes, start, theType, variableName, startDepth, assignReference, ignoreVariableTypes),
               x, theReference, old(x.referringNode))
    ensures !mixed ==> forall x :: x in nodes ==>
      x.referringNode
      == Given(assignReference && Touched(x, start, startDepth, variableName), x, theReference, old(x.referringNode))
  {
    hide Formed, Reaches, InScope, Binds, Comes, Mixes, Gets, AllGot;
    NoneBelow(startDepth);
    forall x | x in nodes
      ensures x in AllGot(nodes, start, theType, variableName, startDepth, assignReference, ignoreVariableTypes) ==>
        Comes(start, startDepth, x)
      ensures Comes(start, startDepth, x) ==>
        Mixes(nodes, start, theType, variableName, startDepth, assignReference, ignoreVariableTypes)
        || x in AllGot(nodes, start, theType, variableName, startDepth, assignReference, ignoreVariableTypes)
    {
      GotIs(nodes, ces, start, theType, variableName, startDepth, assignReference, ignoreVariableTypes, x);
    }
    if start != null {
      forall x | x in nodes && Comes(start, startDepth, x) ensures Reaches(ces, start, startDepth, x) {
        ComesReaches(nodes, ces, start, startDepth, x);
      }
    }
    mixed := PropagateVariableToNodes(start, theType, variableName, theReference, startDepth, assignReference,
                                      ignoreVariableTypes, nodes, ces);
  }

  lemma Rights(nodes: set<LhsParseNode>, ces: seq<LhsParseNode>, n: LhsParseNode, depth: int)
    requires Formed(nodes, ces) && n in nodes
    ensures n.right != null ==> n.right in nodes
    ensures n.right != null ==> forall m :: m in nodes && Reaches(ces, n.right, depth, m) ==> InScope(ces, n.ce, m.ce)
    ensures n.bottom != null ==> n.bottom in nodes
    ensures n.bottom != null && !n.IsCE() ==>
      forall m :: m in nodes && Reaches(ces, n.bottom, depth, m) ==> InScope(ces, n.ce, m.ce)
  {
    assert NodeFormed(nodes, ces, n);
  }

  lemma Later(nodes: set<LhsParseNode>, ces: seq<LhsParseNode>, head: LhsParseNode)
    requires Formed(nodes, ces) && head in nodes && head.IsCE() && Open(head) && head.bottom != null
    ensures forall m :: m in nodes && Reaches(ces, head.bottom, head.beginNandDepth, m) ==> InScope(ces, head.ce, m.ce)
  {
    assert NodeFormed(nodes, ces, head);
    forall m | m in nodes && Reaches(ces, head.bottom, head.beginNandDepth, m) ensures InScope(ces, head.ce, m.ce) {
      assert NodeFormed(nodes, ces, m);
    }
  }

  /** The occurrences that the driver's propagation reaches: behind the slot's header, behind the field, and from an
      open pattern in the elements behind it. */
  ghost predicate Spread(head: LhsParseNode, b: LhsParseNode, header: LhsParseNode?, v: Value, x: LhsParseNode) {
    || SpreadBehind(head, b, header, v, x)
    || (Open(head) && Touched(x, head.bottom, head.beginNandDepth, v))
  }

  ghost predicate SpreadBehind(head: LhsParseNode, b: LhsParseNode, header: LhsParseNode?, v: Value,
                               x: LhsParseNode) {
    || (header != null && Touched(x, header.right, head.beginNandDepth, v))
    || Touched(x, b.right, head.beginNandDepth, v)
  }

  /** The part of the driver within the pattern: behind the slot's header, and behind the field. */
  method PropagateBehind(patternHead: LhsParseNode, theNode: LhsParseNode, multifieldHeader: LhsParseNode?,
                         theType: NodeType, variableName: Value, theReference: LhsParseNode?, assignReference: bool,
                         ghost nodes: set<LhsParseNode>, ghost ces: seq<LhsParseNode>)
    returns (mixed: bool)
    requires Formed(nodes, ces) && Justified(nodes, ces) && theNode in nodes && theNode.ce == patternHead.ce
    requires multifieldHeader != null ==> multifieldHeader in nodes && multifieldHeader.ce == patternHead.ce
    requires assignReference ==> theReference != null && Binds(nodes, ces, theReference, variableName)
    requires assignReference ==> theReference.ce == patternHead.ce
    modifies nodes`referringNode
    ensures Justified(nodes, ces) && Kept(nodes) && (!assignReference ==> unchanged(nodes`referringNode))
    ensures var d := patternHead.beginNandDepth; mixed <==>
      || (multifieldHeader != null
          && Mixes(nodes, multifieldHeader.right, theType, variableName, d, assignReference, false))
      || Mixes(nodes, theNode.right, theType, variableName, d, assignReference, false)
    ensures !mixed ==> forall x :: x in nodes ==>
      x.referringNode
      == Given(assignReference && SpreadBehind(patternHead, theNode, multifieldHeader, variableName, x), x,
               theReference, old(x.referringNode))
  {
    hide Formed, Justified, Reaches, InScope, Binds, Touched, Mixes, Given, AllGot, Takes, AllSet;
    GivenTwice(theReference);
    if multifieldHeader != null {
      Rights(nodes, ces, multifieldHeader, patternHead.beginNandDepth);
      mixed := PropagateInScope(multifieldHeader.right, theType, variableName, theReference,
                                patternHead.beginNandDepth, assignReference, false, nodes, ces);
      if mixed {
        return true;
      }
    }
    Rights(nodes, ces, theNode, patternHead.beginNandDepth);
    mixed := PropagateInScope(theNode.right, theType, variableName, theReference, patternHead.beginNandDepth,
                              assignReference, false, nodes, ces);
  }

  method PropagateVariableDriver(patternHead: LhsParseNode, theNode: LhsParseNode, multifieldHeader: LhsParseNode?,
                                 theType: NodeType, variableName: Value, theReference: LhsParseNode?,
                                 assignReference: bool,
                                 ghost nodes: set<LhsParseNode>, ghost ces: seq<LhsParseNode>)
    returns (mixed: bool)
    requires Formed(nodes, ces) && Justified(nodes, ces) && patternHead in nodes && patternHead.IsCE()
    requires theNode in nodes && theNode.ce == patternHead.ce
    requires multifieldHeader != null ==> multifieldHeader in nodes && multifieldHeader.ce == patternHead.ce
    requires assignReference ==> theReference != null && Binds(nodes, ces, theReference, variableName)
    requires assignReference ==> theReference.ce == patternHead.ce
    modifies nodes`referringNode
    ensures Justified(nodes, ces) && Kept(nodes) && (!assignReference ==> unchanged(nodes`referringNode))
    ensures var d := patternHead.beginNandDepth; mixed <==>
      || (multifieldHeader != null
          && Mixes(nodes, multifieldHeader.right, theType, variableName, d, assignReference, false))
      || Mixes(nodes, theNode.right, theType, variableName, d, assignReference, false)
      || (Open(patternHead) && Mixes(nodes, patternHead.bottom, theType, variableName, d, assignReference,
                                     patternHead.type_ == TEST_CE))
    ensures !mixed ==> forall x :: x in nodes ==>
      x.referringNode
      == Given(assignReference && Spread(patternHead, theNode, multifieldHeader, variableName, x), x, theReference,
               old(x.referringNode))
  {
    hide Formed, Justified, Reaches, InScope, Binds, Touched, Mixes, Given, AllGot, Takes, AllSet, SpreadBehind;
    GivenTwice(theReference);
    mixed := PropagateBehind(patternHead, theNode, multifieldHeader, theType, variableName, theReference,
                             assignReference, nodes, ces);
    if mixed {
      return true;
    }
    if (patternHead.type_ == PATTERN_CE || patternHead.type_ == TEST_CE) && !patternHead.negated
       && !patternHead.exists_ && patternHead.beginNandDepth <= patternHead.endNandDepth {
      var ignoreVariableMixing := patternHead.type_ == TEST_CE;
      Rights(nodes, ces, patternHead, patternHead.beginNandDepth);
      if patternHead.bottom != null { Later(nodes, ces, patternHead); }
      mixed := PropagateInScope(patternHead.bottom, theType, variableName, theReference, patternHead.beginNandDepth,
                                assignReference, ignoreVariableMixing, nodes, ces);
      if mixed {
        return true;
      }
    }
    return false;
  }

  // ------------------------------------------------------------------------------------------
  // Checking references
  // ------------------------------------------------------------------------------------------

  /** The nodes that the check of an expression looks at: along the right links, and into calls. */
  ghost predicate Looks(e: LhsParseNode?, x: LhsParseNode)
    decreases if e == null then 0 else e.height + 1
  {
    e != null
    && (x == e
        || (e.right != null && e.right.height < e.height && Looks(e.right, x))
        || (e.IsCall() && e.bottom != null && e.bottom.height < e.height && Looks(e.bottom, x)))
  }

  /** Every variable looked at refers to something. */
  ghost predicate Resolved(nodes: set<LhsParseNode>, e: LhsParseNode?)
    reads nodes`referringNode
  {
    forall x :: x in nodes && Looks(e, x) && x.IsVariable() ==> x.referringNode != null
  }

  /** The first node found at fault, or null: a variable without reference, one with constraints that nothing meets,
      or an unknown global variable. The verdicts on constraints and globals come from elsewhere. */
  method CheckExpression(first: LhsParseNode?, staticChecking: bool,
                         ghost nodes: set<LhsParseNode>, ghost ces: seq<LhsParseNode>)
    returns (rv: LhsParseNode?)
    requires Formed(nodes, ces) && (first != null ==> first in nodes)
    ensures rv == null ==> Resolved(nodes, first)
    ensures rv != null ==> rv in nodes && Looks(first, rv) && (rv.IsVariable() || rv.type_ == GBL_VARIABLE)
    ensures rv != null && rv.type_ == MF_VARIABLE ==> rv.referringNode == null
    ensures rv != null && rv.type_ == SF_VARIABLE && !staticChecking ==> rv.referringNode == null
    decreases if first == null then 0 else first.height + 1
  {
    var exprPtr := first;
    while exprPtr != null
      invariant exprPtr != null ==> exprPtr in nodes && exprPtr.height <= first.height
      invariant forall x :: x in nodes && Looks(exprPtr, x) ==> Looks(first, x)
      invariant forall x :: x in nodes && x.IsVariable() && Looks(first, x) && !Looks(exprPtr, x) ==>
        x.referringNode != null
      decreases if exprPtr == null then 0 else exprPtr.height + 1
    {
      var cur: LhsParseNode := exprPtr;
      assert NodeFormed(nodes, ces, cur);
      if cur.type_ == SF_VARIABLE {
        var unmatchable: bool := *;
        if cur.referringNode == null {
          return cur;
        } else if unmatchable && staticChecking {
          return cur;
        }
      } else if cur.type_ == MF_VARIABLE && cur.referringNode == null {
        return cur;
      } else if cur.type_ == GBL_VARIABLE {
        var defined: bool := *;
        if !defined {
          return cur;
        }
      } else if cur.IsCall() && cur.bottom != null {
        rv := CheckExpression(cur.bottom, staticChecking, nodes, ces);
        if rv != null {
          return rv;
        }
      }
      exprPtr := cur.right;
    }
    return null;
  }

  /** `x` is in one of the rows that start at `n` and at the nodes below it by bottom links. */
  ghost predicate InColumns(n: LhsParseNode?, x: LhsParseNode)
    decreases if n == null then 0 else n.height + 1
  {
    n != null && (InRow(n, x) || (n.bottom != null && n.bottom.height < n.height && InColumns(n.bottom, x)))
  }

  /** The constraints on a single field refer to nothing unbound. */
  ghost predicate FieldBound(nodes: set<LhsParseNode>, slot: LhsParseNode)
    reads nodes`referringNode
  {
    forall x :: x in nodes && InColumns(slot.bottom, x) ==> NodeBound(nodes, x)
  }

  ghost predicate NodeBound(nodes: set<LhsParseNode>, x: LhsParseNode)
    reads nodes`referringNode
  {
    && (x.IsVariable() && x in nodes ==> x.referringNode != null)
    && (x.type_ == PREDICATE_CONSTRAINT || x.type_ == RETURN_VALUE_CONSTRAINT ==> Resolved(nodes, x.expression))
  }

  /** Whether some constraint of the slot refers to an unbound variable or to a value that cannot be. */
  method UnboundVariablesInPattern(slot: LhsParseNode, staticChecking: bool,
                                   ghost nodes: set<LhsParseNode>, ghost ces: seq<LhsParseNode>)
    returns (unbound: bool)
    requires Formed(nodes, ces) && slot in nodes
    ensures !unbound && !slot.multifieldSlot ==> FieldBound(nodes, slot)
    ensures !unbound && slot.multifieldSlot ==> forall f :: f in nodes && InRow(slot.bottom, f) ==> FieldBound(nodes, f)
    decreases slot.height, 1
  {
    assert NodeFormed(nodes, ces, slot);
    if slot.multifieldSlot {
      hide FieldBound;
      var theSlot := slot.bottom;
      while theSlot != null
        invariant theSlot != null ==> theSlot in nodes && theSlot.height < slot.height && theSlot.inner
        invariant forall f :: f in nodes && InRow(slot.bottom, f) && !InRow(theSlot, f) ==> FieldBound(nodes, f)
        decreases if theSlot == null then 0 else theSlot.height + 1
      {
        assert NodeFormed(nodes, ces, theSlot);
        unbound := UnboundVariablesInPattern(theSlot, staticChecking, nodes, ces);
        if unbound {
          return true;
        }
        theSlot := theSlot.right;
      }
      return false;
    }
    var orField := slot.bottom;
    while orField != null
      invariant orField != null ==> orField in nodes
      invariant forall x :: x in nodes && InColumns(slot.bottom, x) && !InColumns(orField, x) ==> NodeBound(nodes, x)
      decreases if orField == null then 0 else orField.height + 1
    {
      assert NodeFormed(nodes, ces, orField);
      unbound := UnboundInRow(orField, staticChecking, nodes, ces);
      if unbound {
        return true;
      }
      orField := orField.bottom;
    }
    return false;
  }

  /** One row of fields connected by `&`. */
  method UnboundInRow(orField: LhsParseNode, staticChecking: bool,
                      ghost nodes: set<LhsParseNode>, ghost ces: seq<LhsParseNode>)
    returns (unbound: bool)
    requires Formed(nodes, ces) && orField in nodes
    ensures !unbound ==> forall x :: x in nodes && InRow(orField, x) ==> NodeBound(nodes, x)
  {
    var andField: LhsParseNode? := orField;
    while andField != null
      invariant andField != null ==> andField in nodes
      invariant forall x :: x in nodes && InRow(orField, x) && !InRow(andField, x) ==> NodeBound(nodes, x)
      decreases if andField == null then 0 else andField.height + 1
    {
      var cur: LhsParseNode := andField;
      assert NodeFormed(nodes, ces, cur);
      if cur.IsVariable() && cur.referringNode == null {
        return true;
      } else if cur.type_ == PREDICATE_CONSTRAINT || cur.type_ == RETURN_VALUE_CONSTRAINT {
        var rv := CheckExpression(cur.expression, staticChecking, nodes, ces);
        if rv != null {
          return true;
        }
      } else if cur.type_ == LITERAL && staticChecking {
        var violated: bool := *;
        if violated {
          return true;
        }
      }
      andField := cur.right;
    }
    return false;
  }

  // ------------------------------------------------------------------------------------------
  // One pattern
  // ------------------------------------------------------------------------------------------

  /** A field as such: the variables whose constraints it bears on, then the check of its own constraints. Which
      constraints follow from the field, and whether they can be met, is decided elsewhere. */
  method ProcessField(thePattern: LhsParseNode, multifieldHeader: LhsParseNode?, patternHead: LhsParseNode,
                      staticChecking: bool, ghost nodes: set<LhsParseNode>, ghost ces: seq<LhsParseNode>)
    returns (error: bool)
    requires Formed(nodes, ces) && Justified(nodes, ces) && patternHead in nodes && patternHead.IsCE()
    requires thePattern in nodes && thePattern.ce == patternHead.ce
    requires multifieldHeader != null ==> multifieldHeader in nodes && multifieldHeader.ce == patternHead.ce
    modifies nodes`referringNode
    ensures Justified(nodes, ces) && unchanged(nodes`referringNode)
    ensures !error && thePattern.type_ != PATTERN_CE && !thePattern.multifieldSlot ==> FieldBound(nodes, thePattern)
  {
    hide Formed, Justified, Reaches, InScope, FieldBound, Binds, Given, Spread;
    if thePattern.type_ == PATTERN_CE {
      return false;
    }
    var theList: seq<(NodeType, Value)> := *;
    var i := 0;
    while i < |theList|
      invariant 0 <= i <= |theList| && Justified(nodes, ces) && unchanged(nodes`referringNode)
    {
      error := PropagateVariableDriver(patternHead, thePattern, multifieldHeader, theList[i].0, theList[i].1, null,
                                       false, nodes, ces);
      if error {
        return true;
      }
      i := i + 1;
    }
    error := UnboundVariablesInPattern(thePattern, staticChecking, nodes, ces);
    if error {
      return true;
    }
    var unmatchable: bool := *;
    if unmatchable {
      return true;
    }
    return false;
  }

  /** One field gone through: in which pattern, and behind which multifield slot's header, if any, it is seen. */
  datatype Visit = Visit(head: LhsParseNode, field: LhsParseNode, header: LhsParseNode?)

  /** The visited field binds the variable of occurrence `x`, and its propagation comes to it: among the further
      constraints of the field itself, until kinds are mixed there, or where the driver's propagation reaches. */
  ghost predicate Sees(nodes: set<LhsParseNode>, v: Visit, x: LhsParseNode) {
    var b := v.field;
    Bindable(b)
    && ((b.type_ != PATTERN_CE && Takes(x, b.value)
         && Gets(nodes, b.bottom, b.type_, b.value, v.head.beginNandDepth, true, false, x))
        || Spread(v.head, b, v.header, b.value, x))
  }

  /** What the visited field binds is single- or multifield. */
  ghost function Kind(b: LhsParseNode): NodeType { if b.type_ == PATTERN_CE then SF_VARIABLE else b.type_ }

  /** The driver's propagation of what the field binds meets no variable of the other kind. */
  ghost predicate Unmixed(nodes: set<LhsParseNode>, v: Visit) {
    var b, d := v.field, v.head.beginNandDepth;
    Bindable(b) ==>
      && (v.header != null ==> !Mixes(nodes, v.header.right, Kind(b), b.value, d, true, false))
      && !Mixes(nodes, b.right, Kind(b), b.value, d, true, false)
      && (Open(v.head) ==>
            !Mixes(nodes, v.head.bottom, Kind(b), b.value, d, true, v.head.type_ == TEST_CE))
  }

  lemma SeesIs(nodes: set<LhsParseNode>, v: Visit)
    requires Bindable(v.field)
    ensures var b := v.field; forall x :: x in nodes ==>
      (Sees(nodes, v, x) <==>
         (b.type_ != PATTERN_CE && Takes(x, b.value)
          && x in AllGot(nodes, b.bottom, b.type_, b.value, v.head.beginNandDepth, true, false))
         || Spread(v.head, b, v.header, b.value, x))
  {
    hide Gets, Takes, Spread;
  }

  /** A binding occurrence: a field variable or a pattern address. */
  method ProcessVariable(thePattern: LhsParseNode, multifieldHeader: LhsParseNode?, patternHead: LhsParseNode,
                         staticChecking: bool, ghost nodes: set<LhsParseNode>, ghost ces: seq<LhsParseNode>)
    returns (error: bool)
    requires Formed(nodes, ces) && Justified(nodes, ces) && patternHead in nodes && patternHead.IsCE()
    requires Binds(nodes, ces, thePattern, thePattern.value) && thePattern.ce == patternHead.ce
    requires multifieldHeader != null ==> multifieldHeader in nodes && multifieldHeader.ce == patternHead.ce
    modifies nodes`referringNode
    ensures Justified(nodes, ces) && Kept(nodes)
    ensures !error ==>
      && (multifieldHeader != null ==>
            AllSet(nodes, multifieldHeader.right, patternHead.beginNandDepth, thePattern.value))
      && AllSet(nodes, thePattern.right, patternHead.beginNandDepth, thePattern.value)
      && (Open(patternHead) ==> AllSet(nodes, patternHead.bottom, patternHead.beginNandDepth, thePattern.value))
    ensures !error && thePattern.type_ != PATTERN_CE && !thePattern.multifieldSlot ==> FieldBound(nodes, thePattern)
    ensures !error ==> Unmixed(nodes, Visit(patternHead, thePattern, multifieldHeader))
    ensures !error ==> forall x :: x in nodes ==>
      x.referringNode == Given(Sees(nodes, Visit(patternHead, thePattern, multifieldHeader), x), x, thePattern,
                               old(x.referringNode))
  {
    hide Formed, Justified, Reaches, InScope, AllSet, Given, AllGot, Gets, Takes, Spread, Sees, Touched, Mixes;
    GivenTwice(thePattern);
    SeesIs(nodes, Visit(patternHead, thePattern, multifieldHeader));
    var theType := if thePattern.type_ == PATTERN_CE then SF_VARIABLE else thePattern.type_;
    var theVariable := thePattern.value;
    if thePattern.type_ != PATTERN_CE {
      NotCE(nodes, ces, thePattern);
      Rights(nodes, ces, thePattern, patternHead.beginNandDepth);
      var ignored := PropagateInScope(thePattern.bottom, theType, theVariable, thePattern, patternHead.beginNandDepth,
                                      true, false, nodes, ces);
      error := ProcessField(thePattern, multifieldHeader, patternHead, staticChecking, nodes, ces);
      if error {
        return true;
      }
    }
    error := PropagateVariableDriver(patternHead, thePattern, multifieldHeader, theType, theVariable, thePattern, true,
                                     nodes, ces);
    if !error { SpreadSets(nodes, patternHead, thePattern, multifieldHeader); }
  }

  /** Where the driver's propagation reaches, references are set. */
  lemma SpreadSets(nodes: set<LhsParseNode>, head: LhsParseNode, b: LhsParseNode, header: LhsParseNode?)
    requires forall x :: x in nodes && Spread(head, b, header, b.value, x) ==> x.referringNode != null
    ensures header != null ==> AllSet(nodes, header.right, head.beginNandDepth, b.value)
    ensures AllSet(nodes, b.right, head.beginNandDepth, b.value)
    ensures Open(head) ==> AllSet(nodes, head.bottom, head.beginNandDepth, b.value)
  {
    hide Touched;
  }

  lemma NotCE(nodes: set<LhsParseNode>, ces: seq<LhsParseNode>, n: LhsParseNode)
    requires Formed(nodes, ces) && n in nodes && n.IsVariable()
    ensures !n.IsCE()
  {
  }

  /** The empty multifield slots from a node on by right links. */
  ghost function EmptySlots(n: LhsParseNode?): nat
    decreases if n == null then 0 else n.height + 1
  {
    if n == null then 0
    else
      var rest := if n.right != null && n.right.height < n.height then EmptySlots(n.right) else 0;
      if n.multifieldSlot && n.bottom == null then 1 + rest else rest
  }

  /** Where GetVariables stands: in the row of the pattern, or inside a multifield slot. After an empty slot the
      header is kept, so the fields behind that slot are gone through once more. */
  ghost predicate Standing(nodes: set<LhsParseNode>, patternHead: LhsParseNode, n: LhsParseNode?, header: LhsParseNode?,
                           inside: bool) {
    && (n != null ==> n in nodes && n.ce == patternHead.ce && n.inner == inside)
    && (header != null ==> header in nodes && header.ce == patternHead.ce && header.multifieldSlot)
    && (inside ==> header != null && header.bottom != null && (n != null ==> n.height < header.height))
    && (header != null && !inside && n != null ==> EmptySlots(n) <= EmptySlots(header.right))
    && (forall b :: b in nodes && Coming(n, header, inside, b) ==> InFields(patternHead, b))
    && (header != null ==> forall b :: b in nodes && InFields(header.right, b) ==> InFields(patternHead, b))
  }

  /** The fields to come to. */
  ghost predicate Coming(n: LhsParseNode?, header: LhsParseNode?, inside: bool, b: LhsParseNode) {
    if inside then InRow(n, b) || (header != null && InFields(header.right, b)) else InFields(n, b)
  }

  lemma NoneComing(nodes: set<LhsParseNode>, header: LhsParseNode?)
    ensures forall b :: b in nodes ==> !Coming(null, header, false, b)
  {
  }

  /** The empty slots still ahead. */
  ghost function Ahead(n: LhsParseNode?, header: LhsParseNode?, inside: bool): nat {
    if inside then EmptySlots(header) else if header != null then EmptySlots(header.right) else EmptySlots(n)
  }

  ghost function Height(n: LhsParseNode?): nat { if n == null then 0 else n.height + 1 }

  lemma StandsAtHead(nodes: set<LhsParseNode>, ces: seq<LhsParseNode>, patternHead: LhsParseNode)
    requires Formed(nodes, ces) && patternHead in nodes && patternHead.type_ == PATTERN_CE
    ensures Standing(nodes, patternHead, patternHead, null, false) && patternHead.IsCE()
    ensures forall b :: InFields(patternHead, b) ==> Coming(patternHead, null, false, b)
  {
    assert NodeFormed(nodes, ces, patternHead);
  }

  /** The field to process and the header at it. */
  lemma StandsInside(nodes: set<LhsParseNode>, ces: seq<LhsParseNode>, patternHead: LhsParseNode, n: LhsParseNode,
                     header: LhsParseNode?, inside: bool)
    requires Formed(nodes, ces) && patternHead in nodes && patternHead.type_ == PATTERN_CE
    requires Standing(nodes, patternHead, n, header, inside)
    ensures var t, h := if n.multifieldSlot then n.bottom else n, if n.multifieldSlot then n else header;
      && (t != null ==> t in nodes && t.ce == patternHead.ce && InFields(patternHead, t))
      && (t != null && Bindable(t) ==> Binds(nodes, ces, t, t.value))
      && (t != null && t.IsVariable() ==> Bindable(t))
      && (h != null ==> h in nodes && h.ce == patternHead.ce)
      && (t == null ==> h != null)
  {
    assert NodeFormed(nodes, ces, patternHead);
    assert NodeFormed(nodes, ces, n);
    if n.multifieldSlot {
      if n.bottom != null {
        assert NodeFormed(nodes, ces, n.bottom);
        assert Coming(n, header, inside, n.bottom);
      }
    } else {
      assert Coming(n, header, inside, n);
    }
  }

  /** After an empty slot: on behind it, with the header kept. */
  lemma PastEmpty(nodes: set<LhsParseNode>, ces: seq<LhsParseNode>, patternHead: LhsParseNode, n: LhsParseNode,
                  header: LhsParseNode?, inside: bool)
    requires Formed(nodes, ces) && Standing(nodes, patternHead, n, header, inside) && n.multifieldSlot
    requires n.bottom == null
    ensures Standing(nodes, patternHead, n.right, n, false) && EmptySlots(n.right) < Ahead(n, header, inside) && !inside
    ensures forall b :: b in nodes && Coming(n, header, inside, b) ==> Coming(n.right, n, false, b)
  {
    assert NodeFormed(nodes, ces, n);
    assert forall b :: b in nodes && InFields(n.right, b) ==> Coming(n, header, inside, b);
  }

  /** Into a slot and on within it. */
  lemma IntoSlot(nodes: set<LhsParseNode>, ces: seq<LhsParseNode>, patternHead: LhsParseNode, n: LhsParseNode,
                 header: LhsParseNode?, inside: bool)
    requires Formed(nodes, ces) && Standing(nodes, patternHead, n, header, inside) && n.multifieldSlot
    requires n.bottom != null
    ensures Standing(nodes, patternHead, n.bottom.right, n, true) && EmptySlots(n) <= Ahead(n, header, inside)
    ensures !inside
    ensures n.bottom.height < n.height && (n.bottom.right != null ==> n.bottom.right.height < n.height)
    ensures Standing(nodes, patternHead, n.right, null, false) && EmptySlots(n.right) <= EmptySlots(n)
    ensures n.right != null ==> n.right.height < n.height
    ensures forall b :: b in nodes && Coming(n, header, inside, b) && b != n.bottom ==>
      Coming(n.bottom.right, n, true, b) && (n.bottom.right == null ==> Coming(n.right, null, false, b))
  {
    assert NodeFormed(nodes, ces, n);
    assert NodeFormed(nodes, ces, n.bottom);
    assert forall b :: b in nodes && InFields(n.right, b) ==> Coming(n, header, inside, b);
    assert forall b :: b in nodes && InRow(n.bottom.right, b) ==> InRow(n.bottom, b);
    assert forall b :: b in nodes && InRow(n.bottom, b) ==> Coming(n, header, inside, b);
  }

  /** On by a right link. */
  lemma AlongRow(nodes: set<LhsParseNode>, ces: seq<LhsParseNode>, patternHead: LhsParseNode, n: LhsParseNode,
                 header: LhsParseNode?, inside: bool)
    requires Formed(nodes, ces) && Standing(nodes, patternHead, n, header, inside) && !n.multifieldSlot
    ensures Standing(nodes, patternHead, n.right, header, inside)
    ensures n.right != null ==> n.right.height < n.height
    ensures header == null ==> EmptySlots(n.right) <= EmptySlots(n)
    ensures forall b :: b in nodes && Coming(n, header, inside, b) && b != n ==> Coming(n.right, header, inside, b)
  {
    assert NodeFormed(nodes, ces, n);
    assert forall b :: b in nodes && Coming(n.right, header, inside, b) ==> Coming(n, header, inside, b);
  }

  /** Out of a slot, or back behind the last empty slot. */
  lemma BackToHeader(nodes: set<LhsParseNode>, ces: seq<LhsParseNode>, patternHead: LhsParseNode, n: LhsParseNode,
                     header: LhsParseNode, inside: bool)
    requires Formed(nodes, ces) && Standing(nodes, patternHead, n, header, inside) && !n.multifieldSlot
    ensures Standing(nodes, patternHead, header.right, null, false)
    ensures header.right != null ==> header.right.height < header.height
    ensures EmptySlots(header.right) <= Ahead(n, header, inside)
    ensures forall b :: b in nodes && Coming(null, header, inside, b) ==> Coming(header.right, null, false, b)
  {
    assert NodeFormed(nodes, ces, header);
  }

  /** The fields of a multifield slot from `n` on by right links. */
  ghost function RowOf(head: LhsParseNode, n: LhsParseNode?, header: LhsParseNode): seq<Visit>
    decreases if n == null then 0 else n.height + 1
  {
    if n == null then []
    else
      [Visit(head, n, header)] + if n.right != null &&
        n.right.height < n.height then RowOf(head, n.right, header) else []
  }

  /** The fields from `n` on, those within multifield slots included, once each. The header of an empty slot is kept at
      the fields behind it, up to the next slot. */
  ghost function Once(head: LhsParseNode, n: LhsParseNode?, header: LhsParseNode?): seq<Visit>
    decreases if n == null then 0 else n.height + 1
  {
    if n == null then []
    else
      var now := if n.multifieldSlot then RowOf(head, n.bottom, n) else [Visit(head, n, header)];
      now + if n.right != null && n.right.height < n.height then Once(head, n.right, HeaderBehind(n, header)) else []
  }

  ghost function HeaderBehind(n: LhsParseNode, header: LhsParseNode?): LhsParseNode? {
    if !n.multifieldSlot then header else if n.bottom == null then n else null
  }

  ghost predicate HasSlot(n: LhsParseNode?)
    decreases if n == null then 0 else n.height + 1
  {
    n != null && (n.multifieldSlot || (n.right != null && n.right.height < n.height && HasSlot(n.right)))
  }

  /** The fields behind the last multifield slot, when that slot is empty; the second time without its header. */
  ghost function Again(head: LhsParseNode, n: LhsParseNode?): seq<Visit>
    decreases if n == null then 0 else n.height + 1
  {
    if n == null || n.right == null || n.right.height >= n.height then []
    else if n.multifieldSlot && n.bottom == null && !HasSlot(n.right) then Once(head, n.right, null)
    else Again(head, n.right)
  }

  /** The order in which the fields of a pattern are gone through. */
  ghost function VisitsOf(head: LhsParseNode): seq<Visit> { Once(head, head, null) + Again(head, head) }

  /** The fields still to be processed, from where GetVariables stands. */
  ghost function Todo(head: LhsParseNode, n: LhsParseNode?, header: LhsParseNode?, inside: bool): seq<Visit> {
    if header == null then Once(head, n, null) + Again(head, n)
    else if inside then RowOf(head, n, header) + (Once(head, header.right, null) + Again(head, header.right))
    else Once(head, n, header) + if HasSlot(n) then Again(head, n) else Once(head, header.right, null)
  }

  /** A header that was kept stands in front of an empty slot's row; at its end nothing is behind it. */
  ghost predicate SlotKept(n: LhsParseNode?, header: LhsParseNode?, inside: bool) {
    header != null && !inside ==> (HasSlot(header.right) ==> HasSlot(n)) && (n == null ==> header.right == null)
  }

  lemma {:induction false} NoSlotAgain(head: LhsParseNode, n: LhsParseNode?)
    ensures !HasSlot(n) ==> Again(head, n) == []
    decreases if n == null then 0 else n.height + 1
  {
    if n != null && n.right != null && n.right.height < n.height {
      NoSlotAgain(head, n.right);
    }
  }

  /** One node of a row. */
  lemma RowNext(nodes: set<LhsParseNode>, ces: seq<LhsParseNode>, head: LhsParseNode, n: LhsParseNode,
                header: LhsParseNode?)
    requires Formed(nodes, ces) && n in nodes
    ensures header != null ==> RowOf(head, n, header) == [Visit(head, n, header)] + RowOf(head, n.right, header)
    ensures header != null ==> RowOf(head, null, header) == []
    ensures Once(head, null, header) == [] && Again(head, null) == [] && !HasSlot(null)
    ensures Once(head, n, header)
         == (if n.multifieldSlot then RowOf(head, n.bottom, n) else [Visit(head, n, header)])
            + Once(head, n.right, HeaderBehind(n, header))
    ensures HasSlot(n) <==> n.multifieldSlot || HasSlot(n.right)
    ensures Again(head, n)
         == if n.multifieldSlot && n.bottom == null && !HasSlot(n.right) then Once(head, n.right, null)
            else Again(head, n.right)
  {
    assert NodeFormed(nodes, ces, n);
  }

  lemma NoRow(head: LhsParseNode, header: LhsParseNode)
    ensures RowOf(head, null, header) == []
  {
  }

  lemma TodoPastEmpty(nodes: set<LhsParseNode>, ces: seq<LhsParseNode>, head: LhsParseNode, n: LhsParseNode,
                      header: LhsParseNode?)
    requires Formed(nodes, ces) && n in nodes && n.multifieldSlot && n.bottom == null
    ensures Todo(head, n, header, false) == Todo(head, n.right, n, false) && SlotKept(n.right, n, false)
  {
    hide Formed, RowOf, Once, HasSlot, Again;
    RowNext(nodes, ces, head, n, header);
    NoRow(head, n);
    assert [] + Once(head, n.right, n) == Once(head, n.right, n);
  }

  lemma TodoIntoSlot(nodes: set<LhsParseNode>, ces: seq<LhsParseNode>, head: LhsParseNode, n: LhsParseNode,
                     header: LhsParseNode?)
    requires Formed(nodes, ces) && n in nodes && n.multifieldSlot && n.bottom != null && n.bottom in nodes
    ensures Todo(head, n, header, false) == [Visit(head, n.bottom, n)] + Todo(head, n.bottom.right, n, true)
    ensures n.bottom.right == null ==>
      Todo(head, n, header, false) == [Visit(head, n.bottom, n)] + Todo(head, n.right, null, false)
  {
    hide Formed, RowOf, Once, HasSlot, Again;
    RowNext(nodes, ces, head, n, header);
    RowNext(nodes, ces, head, n.bottom, n);
    var rest := Once(head, n.right, null) + Again(head, n.right);
    assert [] + rest == rest;
    Regrouped(Visit(head, n.bottom, n), RowOf(head, n.bottom.right, n), Once(head, n.right, null),
      Again(head, n.right));
  }

  lemma Regrouped(x: Visit, a: seq<Visit>, b: seq<Visit>, c: seq<Visit>)
    ensures ([x] + a) + b + c == [x] + (a + (b + c))
  {
  }

  lemma TodoAlongSlot(nodes: set<LhsParseNode>, ces: seq<LhsParseNode>, head: LhsParseNode, n: LhsParseNode,
                      header: LhsParseNode)
    requires Formed(nodes, ces) && n in nodes
    ensures Todo(head, n, header, true) == [Visit(head, n, header)] + Todo(head, n.right, header, true)
    ensures n.right == null ==>
      Todo(head, n, header, true) == [Visit(head, n, header)] + Todo(head, header.right, null, false)
  {
    hide Formed, RowOf, Once, HasSlot, Again;
    RowNext(nodes, ces, head, n, header);
    var rest := Once(head, header.right, null) + Again(head, header.right);
    assert [Visit(head, n, header)] + RowOf(head, n.right, header) + rest
        == [Visit(head, n, header)] + (RowOf(head, n.right, header) + rest);
    assert [] + rest == rest;
  }

  lemma TodoAlongRow(nodes: set<LhsParseNode>, ces: seq<LhsParseNode>, head: LhsParseNode, n: LhsParseNode,
                     header: LhsParseNode?)
    requires Formed(nodes, ces) && n in nodes && !n.multifieldSlot && SlotKept(n, header, false)
    ensures n.right != null || header == null ==>
      Todo(head, n, header, false) == [Visit(head, n, header)] + Todo(head, n.right, header, false)
      && SlotKept(n.right, header, false)
    ensures n.right == null && header != null ==>
      Todo(head, n, header, false) == [Visit(head, n, header)] + Todo(head, header.right, null, false)
  {
    hide Formed, RowOf, Once, HasSlot, Again;
    RowNext(nodes, ces, head, n, header);
    var v := Visit(head, n, header);
    var rest := if header == null || HasSlot(n) then Again(head, n) else Once(head, header.right, null);
    assert [v] + Once(head, n.right, header) + rest == [v] + (Once(head, n.right, header) + rest);
    if n.right == null && header != null {
      NoSlotAgain(head, header.right);
      assert [v] + [] + rest == [v] + (rest + []);
    }
  }

  lemma TodoStarts(patternHead: LhsParseNode)
    ensures Todo(patternHead, patternHead, null, false) == VisitsOf(patternHead)
    ensures forall n: LhsParseNode? :: SlotKept(n, null, false)
  {
  }

  lemma KeptNot(n: LhsParseNode?, header: LhsParseNode)
    ensures SlotKept(n, header, true) && SlotKept(header.right, null, false)
  {
  }

  lemma TodoLess(visited: seq<Visit>, v: Visit)
    ensures forall rest: seq<Visit> :: visited + ([v] + rest) == (visited + [v]) + rest
  {
    forall rest: seq<Visit> ensures visited + ([v] + rest) == (visited + [v]) + rest {
      assert visited + ([v] + rest) == (visited + [v]) + rest;
    }
  }

  lemma TodoNothing(head: LhsParseNode, header: LhsParseNode?)
    requires SlotKept(null, header, false)
    ensures Todo(head, null, header, false) == []
  {
  }

  /** The reference of an occurrence after the visits, one after the other. */
  ghost function Final(nodes: set<LhsParseNode>, visits: seq<Visit>, x: LhsParseNode,
                       was: LhsParseNode?): LhsParseNode? {
    if visits == [] then was
    else
      var n := |visits| - 1;
      Given(Sees(nodes, visits[n], x), x, visits[n].field, Final(nodes, visits[..n], x, was))
  }

  ghost predicate AllUnmixed(nodes: set<LhsParseNode>, visits: seq<Visit>) {
    forall i :: 0 <= i < |visits| ==> Unmixed(nodes, visits[i])
  }

  lemma NoneMixed(nodes: set<LhsParseNode>)
    ensures AllUnmixed(nodes, [])
  {
  }

  lemma UnmixedNext(nodes: set<LhsParseNode>, visits: seq<Visit>, v: Visit)
    requires AllUnmixed(nodes, visits) && Unmixed(nodes, v)
    ensures AllUnmixed(nodes, visits + [v])
  {
    hide Unmixed;
  }

  lemma FinalNone(nodes: set<LhsParseNode>)
    ensures forall x: LhsParseNode, was: LhsParseNode? :: Final(nodes, [], x, was) == was
  {
  }

  lemma FinalNext(nodes: set<LhsParseNode>, visits: seq<Visit>, v: Visit)
    ensures forall x: LhsParseNode, was: LhsParseNode? {:trigger Final(nodes, visits + [v], x, was)}
      {:trigger Given(Sees(nodes, v, x), x, v.field, Final(nodes, visits, x, was))} ::
      Final(nodes, visits + [v], x, was) == Given(Sees(nodes, v, x), x, v.field, Final(nodes, visits, x, was))
  {
    assert (visits + [v])[..|visits|] == visits;
  }

  lemma {:induction false} FinalJoin(nodes: set<LhsParseNode>, a: seq<Visit>, b: seq<Visit>, x: LhsParseNode,
                                     was: LhsParseNode?)
    ensures Final(nodes, a + b, x, was) == Final(nodes, b, x, Final(nodes, a, x, was))
    decreases |b|
  {
    hide Given, Sees;
    if b == [] {
      assert a + b == a;
    } else {
      var n := |b| - 1;
      FinalJoin(nodes, a, b[..n], x, was);
      assert (a + b)[..|a + b| - 1] == a + b[..n];
    }
  }

  /** What is done for a field: what it binds has reached the rest of its row and, if the pattern is open, the
      elements in scope; and its own constraints refer to nothing unbound. */
  ghost predicate Done(nodes: set<LhsParseNode>, patternHead: LhsParseNode, b: LhsParseNode)
    reads nodes`referringNode
  {
    && (Bindable(b) ==> AllSet(nodes, b.right, patternHead.beginNandDepth, b.value))
    && (Bindable(b) && Open(patternHead) ==> AllSet(nodes, patternHead.bottom, patternHead.beginNandDepth, b.value))
    && (b.type_ != PATTERN_CE && !b.multifieldSlot ==> FieldBound(nodes, b))
  }

  /** One field of a pattern. */
  method ProcessNode(thePattern: LhsParseNode, multifieldHeader: LhsParseNode?, patternHead: LhsParseNode,
                     staticChecking: bool, ghost nodes: set<LhsParseNode>, ghost ces: seq<LhsParseNode>)
    returns (error: bool)
    requires Formed(nodes, ces) && Justified(nodes, ces) && patternHead in nodes && patternHead.IsCE()
    requires thePattern in nodes && thePattern.ce == patternHead.ce
    requires Bindable(thePattern) ==> Binds(nodes, ces, thePattern, thePattern.value)
    requires thePattern.IsVariable() ==> Bindable(thePattern)
    requires multifieldHeader != null ==> multifieldHeader in nodes && multifieldHeader.ce == patternHead.ce
    modifies nodes`referringNode
    ensures Justified(nodes, ces) && Kept(nodes)
    ensures !error ==> Done(nodes, patternHead, thePattern)
    ensures forall b :: b in nodes && old(Done(nodes, patternHead, b)) ==> Done(nodes, patternHead, b)
    ensures !error ==> Unmixed(nodes, Visit(patternHead, thePattern, multifieldHeader))
    ensures !error ==> forall x :: x in nodes ==>
      x.referringNode == Given(Sees(nodes, Visit(patternHead, thePattern, multifieldHeader), x), x, thePattern,
                               old(x.referringNode))
  {
    hide Formed, Justified, Binds, Touched, InColumns, Looks, InFields, Given, Sees, Unmixed;
    SeesNothing(nodes, Visit(patternHead, thePattern, multifieldHeader));
    GivenTwice(thePattern);
    if thePattern.IsVariable() || (thePattern.type_ == PATTERN_CE && thePattern.value != NoValue) {
      error := ProcessVariable(thePattern, multifieldHeader, patternHead, staticChecking, nodes, ces);
    } else {
      error := ProcessField(thePattern, multifieldHeader, patternHead, staticChecking, nodes, ces);
    }
  }

  lemma SeesNothing(nodes: set<LhsParseNode>, v: Visit)
    ensures !Bindable(v.field) ==> Unmixed(nodes, v) && forall x :: !Sees(nodes, v, x)
  {
  }

  /** Goes through all fields of a pattern, in order; those behind the last multifield slot, when it is empty, are
      gone through twice. */
  method GetVariables(patternHead: LhsParseNode, staticChecking: bool,
                      ghost nodes: set<LhsParseNode>, ghost ces: seq<LhsParseNode>)
    returns (error: bool, ghost visited: seq<Visit>)
    requires Formed(nodes, ces) && Justified(nodes, ces) && patternHead in nodes && patternHead.type_ == PATTERN_CE
    modifies nodes`referringNode
    ensures Justified(nodes, ces) && Kept(nodes)
    ensures !error ==> forall b :: b in nodes && InFields(patternHead, b) ==> Done(nodes, patternHead, b)
    ensures !error ==> visited == VisitsOf(patternHead) && AllUnmixed(nodes, visited)
    ensures !error ==> forall x :: x in nodes ==>
      x.referringNode == Final(nodes, visited, x, old(x.referringNode))
  {
    hide Formed, Justified, EmptySlots, Standing, Binds, Done, Coming, Todo, SlotKept, VisitsOf, Given, Sees, Final,
      AllUnmixed, Unmixed;
    visited := [];
    FinalNone(nodes);
    NoneMixed(nodes);
    TodoStarts(patternHead);
    var thePattern: LhsParseNode? := patternHead;
    var multifieldHeader: LhsParseNode? := null;
    ghost var inside := false;
    StandsAtHead(nodes, ces, patternHead);
    while thePattern != null
      invariant Standing(nodes, patternHead, thePattern, multifieldHeader, inside)
      invariant Justified(nodes, ces) && Kept(nodes) && (thePattern == null ==> !inside)
      invariant visited + Todo(patternHead, thePattern, multifieldHeader, inside) == VisitsOf(patternHead)
      invariant forall x :: x in nodes ==> x.referringNode == Final(nodes, visited, x, old(x.referringNode))
      invariant AllUnmixed(nodes, visited)
      invariant SlotKept(thePattern, multifieldHeader, inside)
      invariant forall b ::
        b in nodes && InFields(patternHead, b) && !Coming(thePattern, multifieldHeader, inside, b) ==>
        Done(nodes, patternHead, b)
      decreases Ahead(thePattern, multifieldHeader, inside), if multifieldHeader != null && !inside then 1 else 0,
                if inside then Height(multifieldHeader) else Height(thePattern), Height(thePattern)
    {
      ghost var n: LhsParseNode := thePattern;
      ghost var h, was := multifieldHeader, inside;
      if thePattern.multifieldSlot {
        multifieldHeader := thePattern;
        thePattern := thePattern.bottom;
        inside := thePattern != null;
      }
      StandsInside(nodes, ces, patternHead, n, h, was);
      if thePattern != null {
        error := ProcessNode(thePattern, multifieldHeader, patternHead, staticChecking, nodes, ces);
        if error {
          return true, visited;
        }
        ghost var visit := Visit(patternHead, thePattern, multifieldHeader);
        TodoLess(visited, visit);
        FinalNext(nodes, visited, visit);
        UnmixedNext(nodes, visited, visit);
        visited := visited + [visit];
      }
      if n.multifieldSlot && n.bottom == null {
        PastEmpty(nodes, ces, patternHead, n, h, was);
        TodoPastEmpty(nodes, ces, patternHead, n, h);
      } else if n.multifieldSlot {
        IntoSlot(nodes, ces, patternHead, n, h, was);
        TodoIntoSlot(nodes, ces, patternHead, n, h);
        KeptNot(n.bottom.right, n);
      } else {
        AlongRow(nodes, ces, patternHead, n, h, was);
        if was { TodoAlongSlot(nodes, ces, patternHead, n, h); } else { TodoAlongRow(nodes, ces, patternHead, n, h); }
        if h != null { KeptNot(n.right, h); }
        if h != null { BackToHeader(nodes, ces, patternHead, n, h, was); }
      }
      if thePattern == null {
        thePattern := multifieldHeader;
      } else if thePattern.right == null && multifieldHeader != null {
        thePattern := multifieldHeader;
        multifieldHeader := null;
        inside := false;
      }
      thePattern := thePattern.right;
    }
    NoneComing(nodes, multifieldHeader);
    TodoNothing(patternHead, multifieldHeader);
    return false, visited;
  }

  // ------------------------------------------------------------------------------------------
  // The tests of not/and groups
  // ------------------------------------------------------------------------------------------

  function DepthsOf(ces: seq<LhsParseNode>): (ds: seq<Depths>)
    ensures |ds| == |ces|
    ensures forall i :: 0 <= i < |ces| ==> ds[i] == Depths(ces[i].beginNandDepth, ces[i].endNandDepth)
  {
    if ces == [] then []
    else DepthsOf(ces[..|ces| - 1]) + [Depths(ces[|ces| - 1].beginNandDepth, ces[|ces| - 1].endNandDepth)]
  }

  ghost function ExternalOf(n: LhsParseNode): External
    reads n`externalNetworkTest, n`externalLeftHash, n`externalRightHash
  {
    External(Conjuncts(n.externalNetworkTest), n.externalLeftHash, n.externalRightHash)
  }

  ghost function Externals(ces: seq<LhsParseNode>): (t: seq<External>)
    reads ces`externalNetworkTest, ces`externalLeftHash, ces`externalRightHash
    ensures |t| == |ces|
    ensures forall i :: 0 <= i < |ces| ==> t[i] == ExternalOf(ces[i])
  {
    if ces == [] then [] else Externals(ces[..|ces| - 1]) + [ExternalOf(ces[|ces| - 1])]
  }

  /** The conditional elements are linked as listed and all different. */
  lemma Linked(nodes: set<LhsParseNode>, ces: seq<LhsParseNode>, i: nat)
    requires Formed(nodes, ces) && i < |ces|
    ensures ces[i].bottom == (if i + 1 < |ces| then ces[i + 1] else null) && ces[i] in nodes
    ensures forall k :: 0 <= k < |ces| && k != i ==> ces[k] != ces[i]
  {
  }

  /** Empties a pattern of its external tests and adds them to what was collected. */
  method Collect(thePattern: LhsParseNode, test: Expr, left: seq<nat>, right: seq<nat>, ghost acc: External,
                 ghost nodes: set<LhsParseNode>, ghost ces: seq<LhsParseNode>, ghost q: nat)
    returns (test1: Expr, left1: seq<nat>, right1: seq<nat>)
    requires Formed(nodes, ces) && q < |ces| && ces[q] == thePattern && acc == External(Conjuncts(test), left, right)
    modifies thePattern`externalNetworkTest, thePattern`externalLeftHash, thePattern`externalRightHash
    ensures Externals(ces) == old(Externals(ces))[q := NOTHING]
    ensures External(Conjuncts(test1), left1, right1) == Plus(old(Externals(ces))[q], acc)
  {
    hide Formed, Externals, CombineExpressions;
    Linked(nodes, ces, q);
    ghost var was := Externals(ces);
    CombinedConjuncts(thePattern.externalNetworkTest, test);
    test1 := CombineExpressions(thePattern.externalNetworkTest, test);
    left1 := thePattern.externalLeftHash + left;
    right1 := thePattern.externalRightHash + right;
    thePattern.externalNetworkTest := NoExpr;
    thePattern.externalLeftHash := [];
    thePattern.externalRightHash := [];
    assert Externals(ces) == was[q := NOTHING];
  }

  /** One scan over a group. */
  method ScanGroup(theLHS: LhsParseNode, ghost nodes: set<LhsParseNode>, ghost ces: seq<LhsParseNode>, ghost i: nat)
    requires Formed(nodes, ces) && i < |ces| && ces[i] == theLHS && Grouped(DepthsOf(ces), i)
    modifies nodes`externalNetworkTest, nodes`externalLeftHash, nodes`externalRightHash
    ensures Externals(ces) == StepAt(DepthsOf(ces), old(Externals(ces)), i)
  {
    hide Formed, Externals, Scan, DepthsOf;
    ghost var ds := DepthsOf(ces);
    var scanDepth := theLHS.beginNandDepth;
    ghost var whole := Scan(ds, Externals(ces), scanDepth, i, NOTHING);
    ghost var acc := NOTHING;
    var thePattern: LhsParseNode? := theLHS;
    var test, left, right := NoExpr, [], [];
    ghost var q := i;
    while thePattern != null
      invariant i <= q <= |ces| && thePattern == (if q < |ces| then ces[q] else null)
      invariant acc == External(Conjuncts(test), left, right)
      invariant Scan(ds, Externals(ces), scanDepth, q, acc) == whole
      decreases |ces| - q
    {
      Linked(nodes, ces, q);
      ScanStep(ds, Externals(ces), scanDepth, q, acc);
      if thePattern.beginNandDepth == scanDepth {
        ghost var added := Plus(Externals(ces)[q], acc);
        test, left, right := Collect(thePattern, test, left, right, acc, nodes, ces, q);
        acc := added;
      }
      if thePattern.endNandDepth < scanDepth {
        Linked(nodes, ces, i);
        ghost var was := Externals(ces);
        theLHS.externalNetworkTest := test;
        theLHS.externalLeftHash := left;
        theLHS.externalRightHash := right;
        assert Externals(ces) == was[i := acc];
        return;
      }
      thePattern := thePattern.bottom;
      q := q + 1;
    }
    ScanEnds(ds, Externals(ces), scanDepth, q, acc);
  }

  lemma ScanStep(ds: seq<Depths>, t: seq<External>, depth: int, q: nat, acc: External)
    requires |t| == |ds| && q < |ds|
    ensures var t1 := if ds[q].begin == depth then t[q := NOTHING] else t;
      var acc1 := if ds[q].begin == depth then Plus(t[q], acc) else acc;
      Scan(ds, t, depth, q, acc)
      == if ds[q].end < depth then Scanned(t1, true, acc1) else Scan(ds, t1, depth, q + 1, acc1)
  {
  }

  lemma ScanEnds(ds: seq<Depths>, t: seq<External>, depth: int, q: nat, acc: External)
    requires |t| == |ds| && q >= |ds|
    ensures Scan(ds, t, depth, q, acc) == Scanned(t, false, acc)
  {
  }

  /** Moves the external tests of every not/and group to the group's first pattern. */
  method CombineNandExpressions(first: LhsParseNode?, ghost nodes: set<LhsParseNode>, ghost ces: seq<LhsParseNode>)
    requires Formed(nodes, ces) && first == if |ces| > 0 then ces[0] else null
    modifies nodes`externalNetworkTest, nodes`externalLeftHash, nodes`externalRightHash
    ensures Externals(ces) == Run(DepthsOf(ces), old(Externals(ces)), |ces|)
  {
    hide Formed, Externals, StepAt, DepthsOf, Run;
    ghost var ds, t := DepthsOf(ces), Externals(ces);
    RunStart(ds, t);
    if first == null {
      return;
    }
    var lastPattern: LhsParseNode := first;
    Linked(nodes, ces, 0);
    var theLHS := first.bottom;
    ghost var i: nat := 1;
    while theLHS != null
      invariant 1 <= i <= |ces| && theLHS == (if i < |ces| then ces[i] else null)
      invariant Externals(ces) == Run(ds, t, i)
      decreases |ces| - i
    {
      Linked(nodes, ces, i);
      RunNext(ds, t, i);
      if !(theLHS.beginNandDepth == 1 || theLHS.beginNandDepth == lastPattern.endNandDepth) {
        ScanGroup(theLHS, nodes, ces, i);
      }
      theLHS := theLHS.bottom;
      i := i + 1;
    }
  }

  lemma RunStart(ds: seq<Depths>, t: seq<External>)
    requires |t| == |ds|
    ensures Run(ds, t, 0) == t && Run(ds, t, 1) == t
  {
    assert Run(ds, t, 1) == StepAt(ds, Run(ds, t, 0), 0);
  }

  lemma RunNext(ds: seq<Depths>, t: seq<External>, i: nat)
    requires |t| == |ds|
    ensures Run(ds, t, i + 1) == StepAt(ds, Run(ds, t, i), i)
    ensures !Grouped(ds, i) ==> Run(ds, t, i + 1) == Run(ds, t, i)
  {
  }

  // ------------------------------------------------------------------------------------------
  // The whole left-hand side
  // ------------------------------------------------------------------------------------------

  /** The variables that were looked at in the test elements before `k` all refer to something. */
  ghost predicate TestsResolved(nodes: set<LhsParseNode>, ces: seq<LhsParseNode>, k: nat)
    reads nodes`referringNode
  {
    forall i :: 0 <= i < k && i < |ces| && ces[i].type_ == TEST_CE ==> Resolved(nodes, ces[i].expression)
  }

  /** All fields of the patterns before `k` are done. */
  ghost predicate PatternsDone(nodes: set<LhsParseNode>, ces: seq<LhsParseNode>, k: nat)
    reads nodes`referringNode
  {
    forall i, b :: 0 <= i < k && i < |ces| && ces[i].type_ == PATTERN_CE && b in nodes && InFields(ces[i], b) ==>
      Done(nodes, ces[i], b)
  }

  /** An earlier pattern that element `j` sees binds the name. */
  ghost predicate BoundBefore(nodes: set<LhsParseNode>, ces: seq<LhsParseNode>, j: nat, v: Value) {
    exists b :: b in nodes && Binds(nodes, ces, b, v) && b.ce < j && InScope(ces, b.ce, j)
  }

  /** Every variable in the expression of a test element is bound by an earlier pattern in scope. */
  ghost predicate TestBound(nodes: set<LhsParseNode>, ces: seq<LhsParseNode>, j: nat)
    requires j < |ces|
  {
    forall x :: x in nodes && Looks(ces[j].expression, x) && x.IsVariable() ==> BoundBefore(nodes, ces, j, x.value)
  }

  ghost predicate NoGlobals(nodes: set<LhsParseNode>, e: LhsParseNode?) {
    forall x :: x in nodes && Looks(e, x) ==> x.type_ != GBL_VARIABLE
  }

  lemma OneMore(nodes: set<LhsParseNode>, ces: seq<LhsParseNode>, i: nat)
    requires i < |ces|
    ensures TestsResolved(nodes, ces, i) && (ces[i].type_ == TEST_CE ==> Resolved(nodes, ces[i].expression)) ==>
      TestsResolved(nodes, ces, i + 1)
    ensures PatternsDone(nodes, ces, i) && ces[i].type_ != PATTERN_CE ==> PatternsDone(nodes, ces, i + 1)
  {
  }

  /** What an expression looks at, propagation from the element comes to, and it belongs to the same element. */
  lemma {:induction false} LooksComes(nodes: set<LhsParseNode>, ces: seq<LhsParseNode>, e: LhsParseNode, depth: int,
                                      x: LhsParseNode)
    requires Formed(nodes, ces) && e in nodes && !e.IsCE() && x in nodes && Looks(e, x)
    ensures Comes(e, depth, x) && x.ce == e.ce
    decreases e.height
  {
    assert NodeFormed(nodes, ces, e);
    if x != e {
      if e.right != null && e.right.height < e.height && Looks(e.right, x) {
        LooksComes(nodes, ces, e.right, depth, x);
      } else {
        LooksComes(nodes, ces, e.bottom, depth, x);
      }
    }
  }

  /** Propagation from element `k` comes to the expression of element `j` if no element on the way closes. */
  lemma {:induction false} ElementsCome(nodes: set<LhsParseNode>, ces: seq<LhsParseNode>, k: nat, j: nat, depth: int,
                                        x: LhsParseNode)
    requires Formed(nodes, ces) && k <= j < |ces| && StaysIn(ces, k, j, depth) && Comes(ces[j].expression, depth, x)
    ensures Comes(ces[k], depth, x)
    decreases j - k
  {
    assert NodeFormed(nodes, ces, ces[k]);
    if k < j {
      ElementsCome(nodes, ces, k + 1, j, depth, x);
    }
  }

  /** With the patterns before a test done, a variable in the test has a reference if and only if an earlier pattern
      in scope binds it. */
  lemma SetIffBound(nodes: set<LhsParseNode>, ces: seq<LhsParseNode>, j: nat, x: LhsParseNode)
    requires Formed(nodes, ces) && Justified(nodes, ces) && PatternsDone(nodes, ces, j)
    requires j < |ces| && ces[j].type_ == TEST_CE && x in nodes && Looks(ces[j].expression, x) && x.IsVariable()
    ensures x.referringNode != null <==> BoundBefore(nodes, ces, j, x.value)
  {
    assert NodeFormed(nodes, ces, ces[j]);
    assert NodeFormed(nodes, ces, x);
    LooksComes(nodes, ces, ces[j].expression, 0, x);
    if x.referringNode != null {
      assert x.referringNode in nodes;
    }
    if BoundBefore(nodes, ces, j, x.value) {
      var b :| b in nodes && Binds(nodes, ces, b, x.value) && b.ce < j && InScope(ces, b.ce, j);
      var head := ces[b.ce];
      LooksComes(nodes, ces, ces[j].expression, head.beginNandDepth, x);
      ElementsCome(nodes, ces, b.ce + 1, j, head.beginNandDepth, x);
      assert Done(nodes, head, b);
      assert Touched(x, head.bottom, head.beginNandDepth, x.value);
    }
  }

  /** A pattern element. */
  method AnalysePattern(thePattern: LhsParseNode, staticChecking: bool,
                        ghost nodes: set<LhsParseNode>, ghost ces: seq<LhsParseNode>, ghost i: nat)
    returns (error: bool)
    requires Formed(nodes, ces) && Justified(nodes, ces) && thePattern in nodes && thePattern.type_ == PATTERN_CE
    requires i < |ces| && ces[i] == thePattern
    modifies nodes`referringNode
    ensures Justified(nodes, ces)
    ensures old(TestsResolved(nodes, ces, i)) ==> TestsResolved(nodes, ces, i)
    ensures old(PatternsDone(nodes, ces, i)) ==> PatternsDone(nodes, ces, if error then i else i + 1)
    ensures !error ==> AllUnmixed(nodes, VisitsOf(thePattern))
    ensures !error ==> forall x :: x in nodes ==>
      x.referringNode == Final(nodes, VisitsOf(thePattern), x, old(x.referringNode))
  {
    hide Formed, Justified, Touched, InColumns, Looks, InFields, Final, VisitsOf, AllUnmixed;
    ghost var visited;
    error, visited := GetVariables(thePattern, staticChecking, nodes, ces);
  }

  lemma ResolvedIffBound(nodes: set<LhsParseNode>, ces: seq<LhsParseNode>, i: nat)
    requires Formed(nodes, ces) && Justified(nodes, ces) && PatternsDone(nodes, ces, i)
    requires i < |ces| && ces[i].type_ == TEST_CE
    ensures Resolved(nodes, ces[i].expression) <==> TestBound(nodes, ces, i)
  {
    hide Formed, Justified, PatternsDone, Looks, BoundBefore;
    forall x | x in nodes && Looks(ces[i].expression, x) && x.IsVariable()
      ensures x.referringNode != null <==> BoundBefore(nodes, ces, i, x.value)
    {
      SetIffBound(nodes, ces, i, x);
    }
  }

  /** The node found at fault shows it, unless it is a global variable or has constraints that nothing meets. */
  lemma NotResolved(nodes: set<LhsParseNode>, e: LhsParseNode?, rv: LhsParseNode)
    requires rv in nodes && Looks(e, rv) && (rv.IsVariable() || rv.type_ == GBL_VARIABLE)
    ensures NoGlobals(nodes, e) && rv.referringNode == null ==> !Resolved(nodes, e)
    ensures NoGlobals(nodes, e) ==> rv.type_ == SF_VARIABLE || rv.type_ == MF_VARIABLE
  {
    hide Looks;
  }

  /** A test element: its expression is checked, and becomes a test of the join network when all is well. */
  method AnalyseTest(theTest: LhsParseNode, staticChecking: bool,
                     ghost nodes: set<LhsParseNode>, ghost ces: seq<LhsParseNode>, ghost i: nat)
    returns (error: bool, bad: bool)
    requires Formed(nodes, ces) && Justified(nodes, ces) && theTest in nodes && theTest.type_ == TEST_CE
    requires i < |ces| && ces[i] == theTest && PatternsDone(nodes, ces, i)
    modifies nodes`referringNode, theTest`networkTest, theTest`externalNetworkTest
    ensures Justified(nodes, ces) && PatternsDone(nodes, ces, i) && unchanged(nodes`referringNode)
    ensures old(TestsResolved(nodes, ces, i)) ==> TestsResolved(nodes, ces, i)
    ensures !bad ==> Resolved(nodes, theTest.expression) && TestBound(nodes, ces, i)
    ensures bad && NoGlobals(nodes, theTest.expression) && !staticChecking ==> !TestBound(nodes, ces, i)
  {
    hide *;
    ExpressionIn(nodes, ces, theTest);
    var rv := CheckExpression(theTest.expression, staticChecking, nodes, ces);
    bad := rv != null;
    ResolvedIffBound(nodes, ces, i);
    if rv != null { NotResolved(nodes, theTest.expression, rv); }
    error := DeriveFromTest(theTest, nodes, ces);
    if error {
      return true, bad;
    }
    if rv == null {
      var isNandTest: bool := *;
      var replaced: Expr := *;
      if isNandTest {
        theTest.externalNetworkTest := replaced;
      } else {
        theTest.networkTest := replaced;
      }
    }
    return false, bad;
  }

  /** The constraints that a test implies go to the other occurrences of its variables; which they are is decided
      elsewhere. */
  method DeriveFromTest(theTest: LhsParseNode, ghost nodes: set<LhsParseNode>, ghost ces: seq<LhsParseNode>)
    returns (error: bool)
    requires Formed(nodes, ces) && Justified(nodes, ces) && theTest in nodes && theTest.type_ == TEST_CE
    modifies nodes`referringNode
    ensures Justified(nodes, ces) && unchanged(nodes`referringNode)
  {
    hide *;
    var theList: seq<Value> := *;
    TestIsCE(theTest);
    var k := 0;
    while k < |theList|
      invariant 0 <= k <= |theList| && Justified(nodes, ces) && unchanged(nodes`referringNode)
    {
      error := PropagateVariableDriver(theTest, theTest, null, SF_VARIABLE, theList[k], null, false, nodes, ces);
      if error {
        return true;
      }
      k := k + 1;
    }
    return false;
  }

  lemma TestIsCE(theTest: LhsParseNode)
    requires theTest.type_ == TEST_CE
    ensures theTest.IsCE()
  {
  }

  lemma ExpressionIn(nodes: set<LhsParseNode>, ces: seq<LhsParseNode>, n: LhsParseNode)
    requires Formed(nodes, ces) && n in nodes
    ensures n.expression != null ==> n.expression in nodes
  {
  }

  // ------------------------------------------------------------------------------------------
  // Which binding occurrence a reference is
  // ------------------------------------------------------------------------------------------

  /** The visits of the patterns among the first `n` elements. */
  ghost function AllVisits(ces: seq<LhsParseNode>, n: nat): seq<Visit>
    requires n <= |ces|
  {
    if n == 0 then []
    else AllVisits(ces, n - 1) + if ces[n - 1].type_ == PATTERN_CE then VisitsOf(ces[n - 1]) else []
  }

  /** The binding occurrences whose propagation comes to `x`, in the order of the visits. */
  ghost function Binders(nodes: set<LhsParseNode>, visits: seq<Visit>, x: LhsParseNode): seq<LhsParseNode> {
    if visits == [] then []
    else
      var n := |visits| - 1;
      Binders(nodes, visits[..n], x) + if Sees(nodes, visits[n], x) then [visits[n].field] else []
  }

  ghost function Prior(was: LhsParseNode?): seq<LhsParseNode> { if was == null then [] else [was] }

  /** The binding occurrence takes the place of another one: the occurrence is a pattern's address, or of the same
      pattern, or of the same type of pattern. */
  ghost predicate Replaces(x: LhsParseNode, b: LhsParseNode) {
    x.type_ == PATTERN_CE || b.pattern == x.pattern || b.patternType == x.patternType
  }

  ghost predicate IsLast(x: LhsParseNode, binders: seq<LhsParseNode>, i: nat)
    requires i < |binders|
  {
    Replaces(x, binders[i]) && forall j :: i < j < |binders| ==> !Replaces(x, binders[j])
  }

  /** The last of the binding occurrences that take the place of others, the first of all if none does, and none if
      there is none. */
  ghost predicate Chosen(x: LhsParseNode, binders: seq<LhsParseNode>, r: LhsParseNode?) {
    && (binders == [] ==> r == null)
    && (binders != [] && (forall i :: 0 <= i < |binders| ==> !Replaces(x, binders[i])) ==> r == binders[0])
    && (forall i :: 0 <= i < |binders| && IsLast(x, binders, i) ==> r == binders[i])
  }

  /** The last of them, if any. */
  lemma LastReplacing(x: LhsParseNode, binders: seq<LhsParseNode>) returns (i: int)
    ensures -1 <= i < |binders| && (i >= 0 ==> IsLast(x, binders, i))
    ensures i == -1 ==> forall j :: 0 <= j < |binders| ==> !Replaces(x, binders[j])
  {
    hide Replaces;
    i := |binders| - 1;
    while i >= 0 && !Replaces(x, binders[i])
      invariant -1 <= i < |binders| && forall j :: i < j < |binders| ==> !Replaces(x, binders[j])
    {
      i := i - 1;
    }
  }

  /** So the choice is determined. */
  lemma ChosenOnce(x: LhsParseNode, binders: seq<LhsParseNode>, r: LhsParseNode?, q: LhsParseNode?)
    requires Chosen(x, binders, r) && Chosen(x, binders, q)
    ensures r == q
  {
    hide Replaces;
    var i := LastReplacing(x, binders);
  }

  /** One binding occurrence more. */
  lemma ChosenNext(x: LhsParseNode, binders: seq<LhsParseNode>, b: LhsParseNode, r: LhsParseNode?)
    requires Chosen(x, binders, r)
    ensures Chosen(x, binders + [b], Updated(x, b, r))
  {
    var s := binders + [b];
    var n := |binders|;
    var last := LastReplacing(x, binders);
    assert s[n] == b && forall i :: 0 <= i < n ==> s[i] == binders[i];
    UpdatedIs(x, b, r);
    hide Replaces, Updated;
    if !Replaces(x, b) && last >= 0 {
      assert r == binders[last];
      assert IsLast(x, s, last);
    }
  }

  lemma UpdatedIs(x: LhsParseNode, b: LhsParseNode, r: LhsParseNode?)
    ensures Updated(x, b, r) == if Replaces(x, b) || r == null then b else r
  {
  }

  /** What the visits leave is the binding occurrence chosen from those that come to it. */
  lemma {:induction false} FinalIs(nodes: set<LhsParseNode>, visits: seq<Visit>, x: LhsParseNode, was: LhsParseNode?)
    ensures Chosen(x, Prior(was) + Binders(nodes, visits, x), Final(nodes, visits, x, was))
  {
    hide Sees, Updated, Chosen, Prior;
    if visits == [] {
      ChosenFirst(x, was);
      assert Prior(was) + [] == Prior(was);
    } else {
      var n := |visits| - 1;
      FinalIs(nodes, visits[..n], x, was);
      var before := Binders(nodes, visits[..n], x);
      if Sees(nodes, visits[n], x) {
        ChosenNext(x, Prior(was) + before, visits[n].field, Final(nodes, visits[..n], x, was));
        assert Prior(was) + (before + [visits[n].field]) == Prior(was) + before + [visits[n].field];
      } else {
        assert before + [] == before;
      }
    }
  }

  lemma ChosenFirst(x: LhsParseNode, was: LhsParseNode?)
    ensures Chosen(x, Prior(was), was)
  {
  }

  lemma VisitsNext(nodes: set<LhsParseNode>, ces: seq<LhsParseNode>, i: nat)
    requires i < |ces|
    ensures ces[i].type_ == PATTERN_CE ==>
      forall x: LhsParseNode, was: LhsParseNode? {:trigger Final(nodes, AllVisits(ces, i + 1), x, was)}
        {:trigger Final(nodes, VisitsOf(ces[i]), x, Final(nodes, AllVisits(ces, i), x, was))} ::
        Final(nodes, AllVisits(ces, i + 1), x, was)
        == Final(nodes, VisitsOf(ces[i]), x, Final(nodes, AllVisits(ces, i), x, was))
    ensures ces[i].type_ != PATTERN_CE ==> AllVisits(ces, i + 1) == AllVisits(ces, i)
    ensures AllUnmixed(nodes, AllVisits(ces, i)) && (ces[i].type_ == PATTERN_CE ==> AllUnmixed(nodes, VisitsOf(ces[i])))
      ==> AllUnmixed(nodes, AllVisits(ces, i + 1))
  {
    hide Final, VisitsOf, Unmixed;
    forall x: LhsParseNode, was: LhsParseNode?
      ensures Final(nodes, AllVisits(ces, i) + VisitsOf(ces[i]), x, was)
           == Final(nodes, VisitsOf(ces[i]), x, Final(nodes, AllVisits(ces, i), x, was))
    {
      FinalJoin(nodes, AllVisits(ces, i), VisitsOf(ces[i]), x, was);
    }
  }

  /** The analysis of all conditional elements. What it reports as an error is not all that is wrong with a pattern:
      the verdicts on constraints come from elsewhere. */
  method VariableAnalysis(first: LhsParseNode?, staticChecking: bool,
                          ghost nodes: set<LhsParseNode>, ghost ces: seq<LhsParseNode>)
    returns (errorFlag: bool)
    requires Formed(nodes, ces) && Justified(nodes, ces) && first == if |ces| > 0 then ces[0] else null
    modifies nodes`referringNode, nodes`networkTest
    modifies nodes`externalNetworkTest, nodes`externalLeftHash, nodes`externalRightHash
    ensures Justified(nodes, ces)
    ensures !errorFlag ==> TestsResolved(nodes, ces, |ces|) && PatternsDone(nodes, ces, |ces|)
    ensures !errorFlag ==> AllUnmixed(nodes, AllVisits(ces, |ces|))
    ensures !errorFlag ==> forall x :: x in nodes ==>
      Chosen(x, Prior(old(x.referringNode)) + Binders(nodes, AllVisits(ces, |ces|), x), x.referringNode)
  {
    hide *;
    errorFlag := false;
    var patternPtr := first;
    ghost var i: nat := 0;
    NoneYet(nodes, ces);
    FinalNone(nodes);
    NoneMixed(nodes);
    while patternPtr != null
      invariant 0 <= i <= |ces| && patternPtr == (if i < |ces| then ces[i] else null)
      invariant Justified(nodes, ces) && PatternsDone(nodes, ces, i) && (!errorFlag ==> TestsResolved(nodes, ces, i))
      invariant AllUnmixed(nodes, AllVisits(ces, i))
      invariant forall x :: x in nodes ==>
        x.referringNode == Final(nodes, AllVisits(ces, i), x, old(x.referringNode))
      decreases |ces| - i
    {
      Linked(nodes, ces, i);
      if patternPtr.type_ == PATTERN_CE {
        if patternPtr.value != NoValue && patternPtr.referringNode != null {
          errorFlag := true;
        }
        var error := AnalysePattern(patternPtr, staticChecking, nodes, ces, i);
        if error {
          return true;
        }
      } else if patternPtr.type_ == TEST_CE {
        var error, bad := AnalyseTest(patternPtr, staticChecking, nodes, ces, i);
        if error {
          return true;
        }
        if bad {
          errorFlag := true;
        }
      }
      OneMore(nodes, ces, i);
      VisitsNext(nodes, ces, i);
      patternPtr := patternPtr.bottom;
      i := i + 1;
    }
    CombineNandExpressions(first, nodes, ces);
    forall x | x in nodes
      ensures Chosen(x, Prior(old(x.referringNode)) + Binders(nodes, AllVisits(ces, |ces|), x), x.referringNode)
    {
      FinalIs(nodes, AllVisits(ces, |ces|), x, old(x.referringNode));
    }
  }

  lemma NoneYet(nodes: set<LhsParseNode>, ces: seq<LhsParseNode>)
    ensures TestsResolved(nodes, ces, 0) && PatternsDone(nodes, ces, 0) && AllVisits(ces, 0) == []
  {
  }

  /** Visit `k` is the last that comes to `x`. */
  ghost predicate LastTo(nodes: set<LhsParseNode>, visits: seq<Visit>, x: LhsParseNode, k: nat)
    requires k < |visits|
  {
    Sees(nodes, visits[k], x) && forall m :: k < m < |visits| ==> !Sees(nodes, visits[m], x)
  }

  /** Visit `k` is the first. */
  ghost predicate FirstTo(nodes: set<LhsParseNode>, visits: seq<Visit>, x: LhsParseNode, k: nat)
    requires k < |visits|
  {
    Sees(nodes, visits[k], x) && forall m :: 0 <= m < k ==> !Sees(nodes, visits[m], x)
  }

  /** Where all binding occurrences that come to `x` are of its type of pattern, it refers to the last of them: none
      was gone through after it. */
  lemma LatestBinder(nodes: set<LhsParseNode>, visits: seq<Visit>, x: LhsParseNode, r: LhsParseNode?)
    requires Chosen(x, Prior(null) + Binders(nodes, visits, x), r) && Binders(nodes, visits, x) != []
    requires forall b :: b in Binders(nodes, visits, x) ==> b.patternType == x.patternType
    ensures exists k :: 0 <= k < |visits| && r == visits[k].field && LastTo(nodes, visits, x, k)
  {
    LastChosen(x, Binders(nodes, visits, x), r);
    hide *;
    var k := LastSees(nodes, visits, x);
  }

  lemma LastChosen(x: LhsParseNode, s: seq<LhsParseNode>, r: LhsParseNode?)
    requires Chosen(x, Prior(null) + s, r) && s != [] && forall b :: b in s ==> b.patternType == x.patternType
    ensures r == s[|s| - 1]
  {
    assert Prior(null) + s == s;
    assert s[|s| - 1] in s && IsLast(x, s, |s| - 1);
  }

  lemma {:induction false} LastSees(nodes: set<LhsParseNode>, visits: seq<Visit>, x: LhsParseNode) returns (k: nat)
    requires Binders(nodes, visits, x) != []
    ensures k < |visits| && LastTo(nodes, visits, x, k)
    ensures var s := Binders(nodes, visits, x); s[|s| - 1] == visits[k].field
  {
    hide Sees;
    k := |visits| - 1;
    if !Sees(nodes, visits[k], x) {
      var front := visits[..k];
      k := LastSees(nodes, front, x);
      forall m | k < m < |visits| ensures !Sees(nodes, visits[m], x) {
        assert m < |front| ==> front[m] == visits[m];
      }
    }
  }

  /** Where none is of its pattern or of its type of pattern, it refers to the first. */
  lemma EarliestBinder(nodes: set<LhsParseNode>, visits: seq<Visit>, x: LhsParseNode, r: LhsParseNode?)
    requires Chosen(x, Prior(null) + Binders(nodes, visits, x), r) && Binders(nodes, visits, x) != []
    requires x.type_ != PATTERN_CE
    requires forall b :: b in Binders(nodes, visits, x) ==> b.pattern != x.pattern && b.patternType != x.patternType
    ensures exists k :: 0 <= k < |visits| && r == visits[k].field && FirstTo(nodes, visits, x, k)
  {
    FirstChosen(x, Binders(nodes, visits, x), r);
    hide *;
    var k := FirstSees(nodes, visits, x);
  }

  lemma FirstChosen(x: LhsParseNode, s: seq<LhsParseNode>, r: LhsParseNode?)
    requires Chosen(x, Prior(null) + s, r) && s != [] && x.type_ != PATTERN_CE
    requires forall b :: b in s ==> b.pattern != x.pattern && b.patternType != x.patternType
    ensures r == s[0]
  {
    assert Prior(null) + s == s;
    forall i | 0 <= i < |s| ensures !Replaces(x, s[i]) {
      assert s[i] in s;
    }
  }

  lemma {:induction false} FirstSees(nodes: set<LhsParseNode>, visits: seq<Visit>, x: LhsParseNode) returns (k: nat)
    requires Binders(nodes, visits, x) != []
    ensures k < |visits| && FirstTo(nodes, visits, x, k) && Binders(nodes, visits, x)[0] == visits[k].field
  {
    hide Sees;
    var n := |visits| - 1;
    var front := visits[..n];
    if Binders(nodes, front, x) != [] {
      k := FirstSees(nodes, front, x);
      assert forall m :: 0 <= m <= k ==> front[m] == visits[m];
    } else {
      k := n;
      forall m | 0 <= m < n ensures !Sees(nodes, visits[m], x) {
        NoneSees(nodes, front, x, m);
        assert front[m] == visits[m];
      }
    }
  }

  lemma {:induction false} NoneSees(nodes: set<LhsParseNode>, visits: seq<Visit>, x: LhsParseNode, m: nat)
    requires Binders(nodes, visits, x) == [] && m < |visits|
    ensures !Sees(nodes, visits[m], x)
  {
    hide Sees;
    var n := |visits| - 1;
    if m < n {
      NoneSees(nodes, visits[..n], x, m);
    }
  }

  /** Without error, outside expressions no variable that the propagation of a single-field variable or of a pattern
      address meets is a multifield variable of the name, none that that of a multifield variable meets is a
      single-field variable or a pattern's address of the name. */
  lemma KindsApart(nodes: set<LhsParseNode>, v: Visit, x: LhsParseNode)
    requires Unmixed(nodes, v) && Bindable(v.field) && v.head.type_ == PATTERN_CE
    requires x in nodes && x.expression == null && x.value == v.field.value
    requires var d := v.head.beginNandDepth;
      (v.header != null && Meets(v.header.right, d, x)) || Meets(v.field.right, d, x)
      || (!v.head.negated && !v.head.exists_ && v.head.beginNandDepth <= v.head.endNandDepth
          && Meets(v.head.bottom, d, x))
    ensures v.field.type_ in {SF_VARIABLE, PATTERN_CE} ==> x.type_ != MF_VARIABLE
    ensures v.field.type_ == MF_VARIABLE ==> x.type_ != SF_VARIABLE && x.type_ != PATTERN_CE
  {
    hide Meets;
  }

  /** A field of an open pattern that binds the name comes to every occurrence in a later element that it is in scope
      of. */
  lemma SeesInScope(nodes: set<LhsParseNode>, ces: seq<LhsParseNode>, v: Visit, j: nat, x: LhsParseNode)
    requires Formed(nodes, ces) && v.head in nodes && v.head.IsCE() && v.head.ce < j < |ces|
    requires Open(v.head) && InScope(ces, v.head.ce, j) && Bindable(v.field) && Takes(x, v.field.value)
    requires Comes(ces[j], v.head.beginNandDepth, x)
    ensures Sees(nodes, v, x)
  {
    assert NodeFormed(nodes, ces, v.head);
    ElementReached(nodes, ces, v.head.ce + 1, j, v.head.beginNandDepth, x);
  }

  lemma {:induction false} ElementReached(nodes: set<LhsParseNode>, ces: seq<LhsParseNode>, k: nat, j: nat,
                                          depth: int, x: LhsParseNode)
    requires Formed(nodes, ces) && k <= j < |ces| && StaysIn(ces, k, j, depth) && Comes(ces[j], depth, x)
    ensures Comes(ces[k], depth, x)
    decreases j - k
  {
    assert NodeFormed(nodes, ces, ces[k]);
    if k < j {
      ElementReached(nodes, ces, k + 1, j, depth, x);
    }
  }

  /** When no error is reported, every variable looked at in a test element refers to a binding occurrence of the
      same name in an earlier pattern, one that is neither negated nor an "exists" and whose group still encloses
      the test: no element in between ends below the depth at which the pattern begins. */
  lemma TestVariablesBound(nodes: set<LhsParseNode>, ces: seq<LhsParseNode>, j: nat, x: LhsParseNode)
    requires Formed(nodes, ces) && Justified(nodes, ces) && TestsResolved(nodes, ces, |ces|)
    requires j < |ces| && ces[j].type_ == TEST_CE && x in nodes && Looks(ces[j].expression, x) && x.IsVariable()
    ensures x.referringNode != null && Binds(nodes, ces, x.referringNode, x.value)
    ensures var i := x.referringNode.ce;
      && i < j && ces[i].type_ == PATTERN_CE && !ces[i].negated && !ces[i].exists_
      && ces[i].beginNandDepth <= ces[i].endNandDepth
      && forall m :: i < m < j ==> ces[m].endNandDepth >= ces[i].beginNandDepth
  {
    assert NodeFormed(nodes, ces, ces[j]);
    LooksComes(nodes, ces, ces[j].expression, 0, x);
    assert Resolved(nodes, ces[j].expression);
    var b := x.referringNode;
    assert NodeFormed(nodes, ces, b);
  }

  lemma {:induction false} RowStays(nodes: set<LhsParseNode>, ces: seq<LhsParseNode>, n: LhsParseNode, x: LhsParseNode)
    requires Formed(nodes, ces) && n in nodes && InRow(n, x)
    ensures x in nodes && x.ce == n.ce && (x.IsCE() ==> x == n)
    decreases n.height
  {
    assert NodeFormed(nodes, ces, n);
    if x != n { RowStays(nodes, ces, n.right, x); }
  }

  lemma {:induction false} FieldsStay(nodes: set<LhsParseNode>, ces: seq<LhsParseNode>, n: LhsParseNode,
                                      x: LhsParseNode)
    requires Formed(nodes, ces) && n in nodes && InFields(n, x)
    ensures x in nodes && x.ce == n.ce && (x.IsCE() ==> x == n)
    decreases n.height
  {
    assert NodeFormed(nodes, ces, n);
    if x == n && !n.multifieldSlot {
    } else if n.multifieldSlot && InRow(n.bottom, x) {
      RowStays(nodes, ces, n.bottom, x);
    } else {
      FieldsStay(nodes, ces, n.right, x);
    }
  }

  lemma {:induction false} ColumnsStay(nodes: set<LhsParseNode>, ces: seq<LhsParseNode>, n: LhsParseNode,
                                       x: LhsParseNode)
    requires Formed(nodes, ces) && n in nodes && !n.IsCE() && InColumns(n, x)
    ensures x.ce == n.ce
    decreases n.height
  {
    assert NodeFormed(nodes, ces, n);
    if InRow(n, x) {
      RowStays(nodes, ces, n, x);
    } else {
      ColumnsStay(nodes, ces, n.bottom, x);
    }
  }

  /** When no error is reported, every variable among the constraints of a field of a pattern refers to a binding
      occurrence of the same name, in the same pattern or in an earlier one in scope. */
  lemma FieldVariablesBound(nodes: set<LhsParseNode>, ces: seq<LhsParseNode>, j: nat, f: LhsParseNode, x: LhsParseNode)
    requires Formed(nodes, ces) && Justified(nodes, ces) && PatternsDone(nodes, ces, |ces|)
    requires j < |ces| && ces[j].type_ == PATTERN_CE && InFields(ces[j], f) && f.type_ != PATTERN_CE
    requires !f.multifieldSlot
    requires x in nodes && InColumns(f.bottom, x) && x.IsVariable()
    ensures x.referringNode != null && Binds(nodes, ces, x.referringNode, x.value)
    ensures x.referringNode.ce == j || (x.referringNode.ce < j && InScope(ces, x.referringNode.ce, j))
  {
    assert NodeFormed(nodes, ces, ces[j]);
    FieldsStay(nodes, ces, ces[j], f);
    assert NodeFormed(nodes, ces, f);
    ColumnsStay(nodes, ces, f.bottom, x);
    assert Done(nodes, ces[j], f);
    assert NodeBound(nodes, x);
  }

  /** And so does every variable looked at in a predicate or return-value constraint of the field. */
  lemma ConstraintVariablesBound(nodes: set<LhsParseNode>, ces: seq<LhsParseNode>, j: nat, f: LhsParseNode,
                                 c: LhsParseNode, x: LhsParseNode)
    requires Formed(nodes, ces) && Justified(nodes, ces) && PatternsDone(nodes, ces, |ces|)
    requires j < |ces| && ces[j].type_ == PATTERN_CE && InFields(ces[j], f) && f.type_ != PATTERN_CE
    requires !f.multifieldSlot
    requires c in nodes && InColumns(f.bottom, c)
    requires c.type_ == PREDICATE_CONSTRAINT || c.type_ == RETURN_VALUE_CONSTRAINT
    requires x in nodes && Looks(c.expression, x) && x.IsVariable()
    ensures x.referringNode != null && Binds(nodes, ces, x.referringNode, x.value)
    ensures x.referringNode.ce == j || (x.referringNode.ce < j && InScope(ces, x.referringNode.ce, j))
  {
    assert NodeFormed(nodes, ces, ces[j]);
    FieldsStay(nodes, ces, ces[j], f);
    assert NodeFormed(nodes, ces, f);
    ColumnsStay(nodes, ces, f.bottom, c);
    assert NodeFormed(nodes, ces, c);
    LooksComes(nodes, ces, c.expression, 0, x);
    assert Done(nodes, ces[j], f);
    assert NodeBound(nodes, c);
  }
}
