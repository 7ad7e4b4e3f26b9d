/** What the names and the daughter lists that the parser reports are, in terms of the expression alone: every node
    is its category with its number in preorder, every leaf a "P" with its number from the left. */
module TreeReport {
  import opened Grammar
  import opened Numerals
  import opened TreeTables

  // ------------------------------------------------------------------------------------------
  // Counting
  // ------------------------------------------------------------------------------------------

  function Nodes(e: Expression): nat { 1 + NodesIn(e.sub) }

  function NodesIn(s: SubExpression): nat {
    match s
    case One(e) => Nodes(e)
    case More(s', e) => NodesIn(s') + Nodes(e)
    case Word(_) => 0
    case MoreWord(s', _) => NodesIn(s')
  }

  function WordsIn(s: SubExpression): nat {
    match s
    case One(e) => WordsIn(e.sub)
    case More(s', e) => WordsIn(s') + WordsIn(e.sub)
    case Word(_) => 1
    case MoreWord(s', _) => WordsIn(s') + 1
  }

  // ------------------------------------------------------------------------------------------
  // What is to be reported
  // ------------------------------------------------------------------------------------------

  /** A name and the blank behind it. */
  predicate NodeEntry(text: string, category: string, n: nat) {
    text != [] && text[|text| - 1] == ' ' && Numbered(text[..|text| - 1], category, n)
  }

  /** The text lists the daughters in order: subexpressions by category and number, with a blank behind, words as "P"
      and number. */
  ghost predicate Lists(text: string, s: SubExpression, nodes: nat, leaves: nat)
    decreases s
  {
    match s
    case One(e) => NodeEntry(text, e.cat.text, nodes + 1)
    case More(s', e) =>
      exists k :: 0 <= k <= |text|
        && Lists(text[..k], s', nodes, leaves) && NodeEntry(text[k..], e.cat.text, nodes + NodesIn(s') + 1)
    case Word(_) => Numbered(text, "P", leaves + 1)
    case MoreWord(s', _) =>
      exists k :: 0 <= k <= |text|
        && Lists(text[..k], s', nodes, leaves) && Numbered(text[k..], "P", leaves + WordsIn(s') + 1)
  }

  /** The node reports the expression, with `nodes` nodes and `leaves` words before it. */
  ghost predicate Reports(n: Node, e: Expression, nodes: nat, leaves: nat)
    decreases e
  {
    && Numbered(n.name, e.cat.text, nodes + 1) && n.category == e.cat.text && n.head == e.head.text
    && Lists(n.daughters, e.sub, nodes + 1, leaves)
    && ReportIn(n.kids, e.sub, nodes + 1, leaves)
  }

  /** The nodes report the subexpressions, one each. */
  ghost predicate ReportIn(kids: seq<Node>, s: SubExpression, nodes: nat, leaves: nat)
    decreases s
  {
    match s
    case One(e) => |kids| == 1 && Reports(kids[0], e, nodes, leaves)
    case More(s', e) =>
      && kids != [] && ReportIn(kids[..|kids| - 1], s', nodes, leaves)
      && Reports(kids[|kids| - 1], e, nodes + NodesIn(s'), leaves + WordsIn(s'))
    case Word(_) => kids == []
    case MoreWord(s', _) => ReportIn(kids, s', nodes, leaves)
  }

  // ------------------------------------------------------------------------------------------
  // It is reported
  // ------------------------------------------------------------------------------------------

  /** The rendering of a number is its numeral. */
  lemma {:induction false} DecimalIs(n: nat)
    ensures Numeral(Decimal(n), n)
  {
    var digits := "0123456789";
    assert forall i :: 0 <= i < 10 ==> digits[i] as int == '0' as int + i;
    if n >= 10 {
      DecimalIs(n / 10);
      var front, d := Decimal(n / 10), Decimal(n);
      assert d[..|d| - 1] == front && d[0] == front[0];
      assert ValueOf(front) != 0;
    } else {
      var d := Decimal(n);
      assert d[..0] == [];
    }
  }

  lemma Entry(name: string, text: string, n: nat)
    requires name == text + Decimal(n)
    ensures Numbered(name, text, n) && NodeEntry(name + " ", text, n)
  {
    hide Decimal;
    DecimalIs(n);
    NumberedIs(name, text, Decimal(n), n);
    assert (name + " ")[..|name + " "| - 1] == name;
  }

  lemma {:induction false} Counts(e: Expression, nodes: nat, leaves: nat)
    ensures Label(e, nodes, leaves).nodes == nodes + Nodes(e)
    ensures Label(e, nodes, leaves).leaves == leaves + WordsIn(e.sub)
    decreases e
  {
    CountsIn(e.sub, nodes + 1, leaves);
  }

  lemma {:induction false} CountsIn(s: SubExpression, nodes: nat, leaves: nat)
    ensures LabelSub(s, nodes, leaves).nodes == nodes + NodesIn(s)
    ensures LabelSub(s, nodes, leaves).leaves == leaves + WordsIn(s)
    decreases s
  {
    match s
    case One(e) => Counts(e, nodes, leaves);
    case More(s', e) =>
      CountsIn(s', nodes, leaves);
      Counts(e, nodes + NodesIn(s'), leaves + WordsIn(s'));
    case Word(_) =>
    case MoreWord(s', _) => CountsIn(s', nodes, leaves);
  }

  /** The labelled tree reports the expression. */
  lemma {:induction false} LabelReports(e: Expression, nodes: nat, leaves: nat)
    ensures var a := Label(e, nodes, leaves);
      |a.kids| == 1 && Reports(a.kids[0], e, nodes, leaves) && NodeEntry(a.text, e.cat.text, nodes + 1)
    decreases e
  {
    LabelsReport(e.sub, nodes + 1, leaves);
    Entry(e.cat.text + Decimal(nodes + 1), e.cat.text, nodes + 1);
    hide Decimal, Lists, ReportIn, Numbered, NodeEntry;
  }

  lemma {:induction false} LabelsReport(s: SubExpression, nodes: nat, leaves: nat)
    ensures var a := LabelSub(s, nodes, leaves); ReportIn(a.kids, s, nodes, leaves) && Lists(a.text, s, nodes, leaves)
    decreases s
  {
    hide Decimal, Numbered, NodeEntry, Reports;
    match s
    case One(e) => LabelReports(e, nodes, leaves);
    case More(s', e) =>
      var a := LabelSub(s', nodes, leaves);
      CountsIn(s', nodes, leaves);
      LabelsReport(s', nodes, leaves);
      LabelReports(e, a.nodes, a.leaves);
      Joined(a.text, Label(e, a.nodes, a.leaves).text);
      assert (a.kids + Label(e, a.nodes, a.leaves).kids)[..|a.kids|] == a.kids;
    case Word(_) => Entry("P" + Decimal(leaves + 1), "P", leaves + 1);
    case MoreWord(s', _) =>
      var a := LabelSub(s', nodes, leaves);
      CountsIn(s', nodes, leaves);
      LabelsReport(s', nodes, leaves);
      var p := "P" + Decimal(a.leaves + 1);
      Entry(p, "P", a.leaves + 1);
      Joined(a.text, p);
      assert a.text + "P" + Decimal(a.leaves + 1) == a.text + p;
  }

  lemma Joined(a: string, b: string)
    ensures (a + b)[..|a|] == a && (a + b)[|a|..] == b
  {
  }

  /** The tree of a parse names its nodes and leaves as the expression says. */
  lemma TreeReports(e: Expression)
    ensures Reports(LabelledTree(e), e, 0, 0)
  {
    LabelReports(e, 0, 0);
  }

  /** Labels carry preorder numbers. */
  lemma {:induction false} PreorderNumbers(e: Expression, nodes: nat, leaves: nat)
    ensures var p := Preorder(Label(e, nodes, leaves).kids);
      |p| == Nodes(e) && forall i :: 0 <= i < |p| ==> Numbered(p[i].name, p[i].category, nodes + 1 + i)
    decreases e
  {
    var a := Label(e, nodes, leaves);
    PreorderNumbersIn(e.sub, nodes + 1, leaves);
    PreorderBelow(a.kids[0]);
    Entry(a.kids[0].name, e.cat.text, nodes + 1);
    hide Decimal, Numbered, NodeEntry;
  }

  lemma {:induction false} PreorderNumbersIn(s: SubExpression, nodes: nat, leaves: nat)
    ensures var p := Preorder(LabelSub(s, nodes, leaves).kids);
      |p| == NodesIn(s) && forall i :: 0 <= i < |p| ==> Numbered(p[i].name, p[i].category, nodes + 1 + i)
    decreases s
  {
    hide Decimal, Numbered;
    match s
    case One(e) => PreorderNumbers(e, nodes, leaves);
    case More(s', e) =>
      var a := LabelSub(s', nodes, leaves);
      var b := Label(e, a.nodes, a.leaves);
      CountsIn(s', nodes, leaves);
      PreorderNumbersIn(s', nodes, leaves);
      PreorderNumbers(e, a.nodes, a.leaves);
      PreorderAppend(a.kids, b.kids);
    case Word(_) =>
    case MoreWord(s', _) => PreorderNumbersIn(s', nodes, leaves);
  }

  /** Of two nodes of the tree, those with equal names have categories of which one is the other with digits behind
      it. */
  lemma NodesDiffer(e: Expression, i: nat, j: nat)
    requires i < j < |Preorder([LabelledTree(e)])|
    ensures var p := Preorder([LabelledTree(e)]);
      p[i].name == p[j].name ==> ExtendsByDigits(p[i].category, p[j].category)
                                 || ExtendsByDigits(p[j].category, p[i].category)
  {
    PreorderNumbers(e, 0, 0);
    hide LabelledTree, Preorder, Numbered, AllDigits;
    var p := Preorder([LabelledTree(e)]);
    if |p[j].category| <= |p[i].category| {
      NamesDiffer(p[i].name, p[i].category, i + 1, p[j].name, p[j].category, j + 1);
    } else {
      NamesDiffer(p[j].name, p[j].category, j + 1, p[i].name, p[i].category, i + 1);
    }
  }

  /** `q` is `p` with at least one digit, and nothing else, behind it. */
  predicate ExtendsByDigits(q: string, p: string) { |p| < |q| && q[..|p|] == p && AllDigits(q[|p|..]) }

  /** Where no category ends in a digit all names differ. */
  lemma NamesApart(e: Expression, i: nat, j: nat)
    requires i < j < |Preorder([LabelledTree(e)])|
    requires forall k :: 0 <= k < |Preorder([LabelledTree(e)])| ==>
      var c := Preorder([LabelledTree(e)])[k].category; c == [] || !('0' <= c[|c| - 1] <= '9')
    ensures Preorder([LabelledTree(e)])[i].name != Preorder([LabelledTree(e)])[j].name
  {
    NodesDiffer(e, i, j);
    hide LabelledTree, Preorder;
    var p := Preorder([LabelledTree(e)]);
    forall q: string, r: string | ExtendsByDigits(q, r) ensures q != [] && '0' <= q[|q| - 1] <= '9' {
      assert q[|r|..][|q| - |r| - 1] == q[|q| - 1];
    }
  }

  /** A first node of category "NP1" and an eleventh of category "NP" have the same name. */
  lemma NamesMeet()
    ensures Numbered("NP11", "NP1", 1) && Numbered("NP11", "NP", 11)
  {
    assert "NP11"[..3] == "NP1" && "NP11"[..2] == "NP";
    assert "NP11"[3..] == "1" && "NP11"[2..] == "11";
    assert "1"[..0] == [] && "11"[..1] == "1";
    assert ValueOf("1") == 1;
    assert ValueOf("11") == 11;
  }
}
