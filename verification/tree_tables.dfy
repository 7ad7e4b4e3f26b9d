/** The semantic actions of the grammar, as functions on the tables they fill, and what a walk over
    a whole derivation leaves in those tables. */
module TreeTables {
  import opened Grammar

  /** The globals of the parser file that the actions read and write. Rows of `mother`, `head` and
      `daughters` are nesting levels, columns are positions within a level; a missing cell is the
      empty string, a missing count is zero. `index` holds the first `index1` cells of my_index. */
  datatype Tables = Tables(
    level: int,
    index: seq<int>,
    sub: map<int, int>,
    tokens: nat,
    count: nat,
    leaves: nat,
    mother: map<(int, int), string>,
    head: map<(int, int), string>,
    daughters: map<(int, int), string>,
    nodeCat: map<int, string>)

  const NO_TABLES := Tables(0, [0], map[], 0, 0, 0, map[], map[], map[], map[])

  function Sub(s: map<int, int>, l: int): int { if l in s then s[l] else 0 }

  function Cell(m: map<(int, int), string>, l: int, k: int): string {
    if (l, k) in m then m[(l, k)] else ""
  }

  /** The decimal rendering of a count. */
  function Decimal(n: nat): string {
    if n < 10 then ["0123456789"[n]] else Decimal(n / 10) + ["0123456789"[n % 10]]
  }

  function CategoryLine(name: string, category: string): string {
    "(Node-Category\t" + name + "\t" + category + ")\n"
  }

  // ------------------------------------------------------------------------------------------
  // The actions
  // ------------------------------------------------------------------------------------------

  function Here(t: Tables): (int, int) { (t.level, Sub(t.sub, t.level)) }

  /** Rule 2, after the left parenthesis. */
  function OpenLevel(t: Tables): Tables {
    var l := t.level + 1;
    t.(level := l, sub := t.sub[l := Sub(t.sub, l) + 1],
       index := if l in t.index then t.index else t.index + [l])
  }

  /** Rule 3, after the first category. */
  function NameNode(t: Tables, category: string): Tables {
    var name := category + Decimal(t.tokens + 1);
    t.(count := t.count + 1, tokens := t.tokens + 1,
       mother := t.mother[Here(t) := name],
       nodeCat := t.nodeCat[t.count + 1 := CategoryLine(name, category)])
  }

  /** Rule 4, after the head word. */
  function SetHead(t: Tables, word: string): Tables {
    t.(head := t.head[Here(t) := word])
  }

  /** Rules 9 and 10, a leaf below the current node. */
  function AddLeaf(t: Tables): Tables {
    var (l, k) := Here(t);
    t.(leaves := t.leaves + 1,
       daughters := t.daughters[(l, k) := Cell(t.daughters, l, k) + "P" + Decimal(t.leaves + 1)])
  }

  /** Rule 5, before the right parenthesis: the finished node's name goes to its mother. */
  function ReportNode(t: Tables, name: string): Tables {
    var l := t.level - 1;
    var k := Sub(t.sub, l);
    t.(daughters := t.daughters[(l, k) := Cell(t.daughters, l, k) + name + " "])
  }

  /** Rule 6, after the right parenthesis. */
  function CloseLevel(t: Tables): Tables { t.(level := t.level - 1) }

  /** The tables once the head word of an expression has been handled. */
  function Enter(t: Tables, category: string, word: string): Tables {
    SetHead(NameNode(OpenLevel(t), category), word)
  }

  /** All actions of a derivation, in the order in which the parser runs them. */
  function Walk(t: Tables, e: Expression): Tables
    decreases e
  {
    CloseLevel(ReportNode(WalkSub(Enter(t, e.cat.text, e.head.text), e.sub),
                          e.cat.text + Decimal(t.tokens + 1)))
  }

  function WalkSub(t: Tables, s: SubExpression): Tables
    decreases s
  {
    match s
    case One(e) => Walk(t, e)
    case More(s', e) => Walk(WalkSub(t, s'), e)
    case Word(_) => AddLeaf(t)
    case MoreWord(s', _) => AddLeaf(WalkSub(t, s'))
  }

  // ------------------------------------------------------------------------------------------
  // The labelled tree a derivation stands for
  // ------------------------------------------------------------------------------------------

  /** A node with the name, head word and daughter list the program is to report for it. */
  datatype Node = Node(name: string, category: string, head: string, daughters: string, kids: seq<Node>)

  /** A forest with the text naming its members and its leaves, and the running node and leaf
      numbers after it. */
  datatype Labelled = Labelled(kids: seq<Node>, text: string, nodes: nat, leaves: nat)

  /** Nodes are numbered in the order of their left parentheses, leaves from left to right. */
  ghost function Label(e: Expression, nodes: nat, leaves: nat): Labelled {
    var inside := LabelSub(e.sub, nodes + 1, leaves);
    var name := e.cat.text + Decimal(nodes + 1);
    Labelled([Node(name, e.cat.text, e.head.text, inside.text, inside.kids)],
             name + " ", inside.nodes, inside.leaves)
  }

  ghost function LabelSub(s: SubExpression, nodes: nat, leaves: nat): Labelled {
    match s
    case One(e) => Label(e, nodes, leaves)
    case More(s', e) =>
      var a := LabelSub(s', nodes, leaves);
      var b := Label(e, a.nodes, a.leaves);
      Labelled(a.kids + b.kids, a.text + b.text, b.nodes, b.leaves)
    case Word(_) => Labelled([], "P" + Decimal(leaves + 1), nodes, leaves + 1)
    case MoreWord(s', _) =>
      var a := LabelSub(s', nodes, leaves);
      Labelled(a.kids, a.text + "P" + Decimal(a.leaves + 1), a.nodes, a.leaves + 1)
  }

  /** The labelled tree of a whole parse. */
  ghost function LabelledTree(e: Expression): (n: Node) {
    assert |Label(e, 0, 0).kids| == 1;
    Label(e, 0, 0).kids[0]
  }

  ghost function Children(forest: seq<Node>): seq<Node> {
    if forest == [] then [] else forest[0].kids + Children(forest[1..])
  }

  /** The nodes `depth` levels below the roots of the forest, left to right. */
  ghost function Layer(forest: seq<Node>, depth: nat): seq<Node>
    decreases depth
  {
    if depth == 0 then forest else Layer(Children(forest), depth - 1)
  }

  ghost function Preorder(forest: seq<Node>): seq<Node> {
    if forest == [] then [] else [forest[0]] + Preorder(forest[0].kids) + Preorder(forest[1..])
  }

  ghost function Height(forest: seq<Node>): nat {
    if forest == [] then 0
    else Max(1 + Height(forest[0].kids), Height(forest[1..]))
  }

  function Max(a: int, b: int): int { if a < b then b else a }

  lemma {:induction false} ChildrenAppend(a: seq<Node>, b: seq<Node>)
    ensures Children(a + b) == Children(a) + Children(b)
  {
    if a == [] {
      assert a + b == b;
    } else {
      assert (a + b)[1..] == a[1..] + b;
      ChildrenAppend(a[1..], b);
    }
  }

  lemma {:induction false} LayerAppend(a: seq<Node>, b: seq<Node>, d: nat)
    ensures Layer(a + b, d) == Layer(a, d) + Layer(b, d)
    decreases d
  {
    if d != 0 {
      ChildrenAppend(a, b);
      LayerAppend(Children(a), Children(b), d - 1);
    }
  }

  lemma LayerBelow(n: Node, d: nat)
    ensures Layer([n], d + 1) == Layer(n.kids, d)
  {
    assert [n][1..] == [];
    assert Children([n]) == n.kids + [] == n.kids;
  }

  lemma {:induction false} EmptyLayer(d: nat)
    ensures Layer([], d) == []
  {
    if d != 0 { EmptyLayer(d - 1); }
  }

  lemma {:induction false} PreorderAppend(a: seq<Node>, b: seq<Node>)
    ensures Preorder(a + b) == Preorder(a) + Preorder(b)
  {
    if a == [] {
      assert a + b == b;
    } else {
      assert (a + b)[1..] == a[1..] + b;
      PreorderAppend(a[1..], b);
    }
  }

  lemma PreorderBelow(n: Node)
    ensures Preorder([n]) == [n] + Preorder(n.kids)
  {
    assert [n][1..] == [];
  }

  lemma {:induction false} HeightAppend(a: seq<Node>, b: seq<Node>)
    ensures Height(a + b) == Max(Height(a), Height(b))
  {
    if a == [] {
      assert a + b == b;
    } else {
      assert (a + b)[1..] == a[1..] + b;
      HeightAppend(a[1..], b);
    }
  }

  lemma HeightBelow(n: Node)
    ensures Height([n]) == 1 + Height(n.kids)
  {
    assert [n][1..] == [];
  }

  // ------------------------------------------------------------------------------------------
  // What a walk adds to the tables
  // ------------------------------------------------------------------------------------------

  datatype Column = MotherColumn | HeadColumn | DaughtersColumn

  ghost function Reported(n: Node, c: Column): string {
    match c case MotherColumn => n.name case HeadColumn => n.head case DaughtersColumn => n.daughters
  }

  ghost function ColumnOf(t: Tables, c: Column): map<(int, int), string> {
    match c case MotherColumn => t.mother case HeadColumn => t.head case DaughtersColumn => t.daughters
  }

  /** Cell (l, k) after the forest has been added below level t.level of `t`. */
  ghost function Expected(t: Tables, forest: seq<Node>, c: Column, l: int, k: int): string {
    var row := if l > t.level then Layer(forest, l - t.level - 1) else [];
    var before := Sub(t.sub, l);
    if before < k <= before + |row| then Reported(row[k - before - 1], c)
    else Cell(ColumnOf(t, c), l, k)
  }

  /** Every cell of the column is as expected, except the cell of the node the forest is below. */
  ghost predicate ColumnGrown(t: Tables, t': Tables, forest: seq<Node>, c: Column) {
    forall l, k :: (l, k) != Here(t) ==>
      Cell(ColumnOf(t', c), l, k) == Expected(t, forest, c, l, k)
  }

  ghost predicate ColumnsGrown(t: Tables, t': Tables, forest: seq<Node>) {
    && ColumnGrown(t, t', forest, MotherColumn)
    && ColumnGrown(t, t', forest, HeadColumn)
    && ColumnGrown(t, t', forest, DaughtersColumn)
  }

  ghost predicate RowsGrown(t: Tables, t': Tables, forest: seq<Node>) {
    && t'.level == t.level
    && forall l :: Sub(t'.sub, l) ==
         Sub(t.sub, l) + (if l > t.level then |Layer(forest, l - t.level - 1)| else 0)
  }

  /** The mother's own row: only its daughter list grows, by `text`. */
  ghost predicate MotherUpdated(t: Tables, t': Tables, text: string) {
    var (l, k) := Here(t);
    && Cell(t'.mother, l, k) == Cell(t.mother, l, k)
    && Cell(t'.head, l, k) == Cell(t.head, l, k)
    && Cell(t'.daughters, l, k) == Cell(t.daughters, l, k) + text
  }

  ghost predicate Levels(t: Tables) {
    0 <= t.level < |t.index| && forall i :: 0 <= i < |t.index| ==> t.index[i] == i
  }

  ghost predicate LevelsGrown(t: Tables, t': Tables, forest: seq<Node>) {
    Levels(t') && |t'.index| == Max(|t.index|, t.level + 1 + Height(forest))
  }

  /** Nothing has been written where the next nodes of the deeper rows will go. */
  ghost predicate Fresh(t: Tables) {
    forall l, k :: l > t.level && k > Sub(t.sub, l) ==> Cell(t.daughters, l, k) == ""
  }

  function Line(m: map<int, string>, i: int): string { if i in m then m[i] else "" }

  /** From entry `start` + 1 on the lines are those of the nodes, the others are as they were. */
  ghost predicate LinesAdded(was: map<int, string>, now: map<int, string>, start: int, p: seq<Node>) {
    forall i :: Line(now, i) == if start < i <= start + |p| then LineOf(p[i - start - 1]) else Line(was, i)
  }

  ghost function LineOf(n: Node): string { CategoryLine(n.name, n.category) }

  ghost predicate CategoriesGrown(t: Tables, t': Tables, forest: seq<Node>) {
    var p := Preorder(forest);
    t'.count == t.count + |p| && LinesAdded(t.nodeCat, t'.nodeCat, t.count, p)
  }

  ghost predicate Grown(t: Tables, t': Tables, forest: seq<Node>, text: string) {
    && RowsGrown(t, t', forest)
    && ColumnsGrown(t, t', forest)
    && MotherUpdated(t, t', text)
    && LevelsGrown(t, t', forest)
    && CategoriesGrown(t, t', forest)
  }

  ghost predicate Ready(t: Tables) {
    Levels(t) && Fresh(t)
  }

  lemma RowsCompose(t: Tables, t1: Tables, t2: Tables, a: seq<Node>, b: seq<Node>)
    requires RowsGrown(t, t1, a) && RowsGrown(t1, t2, b)
    ensures RowsGrown(t, t2, a + b)
  {
    forall l
      ensures Sub(t2.sub, l) ==
              Sub(t.sub, l) + (if l > t.level then |Layer(a + b, l - t.level - 1)| else 0)
    {
      assert Sub(t1.sub, l) ==
             Sub(t.sub, l) + (if l > t.level then |Layer(a, l - t.level - 1)| else 0);
      if l > t.level { LayerAppend(a, b, l - t.level - 1); }
    }
  }

  lemma ColumnCompose(t: Tables, t1: Tables, t2: Tables, a: seq<Node>, b: seq<Node>, c: Column)
    requires RowsGrown(t, t1, a) && ColumnGrown(t, t1, a, c) && ColumnGrown(t1, t2, b, c)
    ensures ColumnGrown(t, t2, a + b, c)
  {
    assert Here(t1) == Here(t);
    forall l, k | (l, k) != Here(t)
      ensures Cell(ColumnOf(t2, c), l, k) == Expected(t, a + b, c, l, k)
    {
      assert Cell(ColumnOf(t2, c), l, k) == Expected(t1, b, c, l, k);
      assert Cell(ColumnOf(t1, c), l, k) == Expected(t, a, c, l, k);
      assert Sub(t1.sub, l) ==
             Sub(t.sub, l) + (if l > t.level then |Layer(a, l - t.level - 1)| else 0);
      if l > t.level { LayerAppend(a, b, l - t.level - 1); }
    }
  }

  lemma CategoriesCompose(t: Tables, t1: Tables, t2: Tables, a: seq<Node>, b: seq<Node>)
    requires CategoriesGrown(t, t1, a) && CategoriesGrown(t1, t2, b)
    ensures CategoriesGrown(t, t2, a + b)
  {
    PreorderAppend(a, b);
    hide Preorder, LinesAdded;
    LinesJoin(t.nodeCat, t1.nodeCat, t2.nodeCat, t.count, Preorder(a), Preorder(b));
  }

  /** The lines of two lists of nodes, one after the other. */
  lemma LinesJoin(was: map<int, string>, m: map<int, string>, now: map<int, string>, start: int, p: seq<Node>,
                  q: seq<Node>)
    requires LinesAdded(was, m, start, p) && LinesAdded(m, now, start + |p|, q)
    ensures LinesAdded(was, now, start, p + q)
  {
    hide Line, LineOf;
    forall i
      ensures Line(now, i) == if start < i <= start + |p + q| then LineOf((p + q)[i - start - 1]) else Line(was, i)
    {
      assert Line(m, i) == if start < i <= start + |p| then LineOf(p[i - start - 1]) else Line(was, i);
      assert Line(now, i) == if start + |p| < i <= start + |p| + |q| then LineOf(q[i - start - |p| - 1])
        else Line(m, i);
    }
  }

  lemma MotherCompose(t: Tables, t1: Tables, t2: Tables, ta: string, tb: string)
    requires Here(t1) == Here(t) && MotherUpdated(t, t1, ta) && MotherUpdated(t1, t2, tb)
    ensures MotherUpdated(t, t2, ta + tb)
  {
    var (l, k) := Here(t);
    assert Cell(t2.daughters, l, k) == Cell(t.daughters, l, k) + (ta + tb);
  }

  lemma SamePlace(t: Tables, t': Tables, forest: seq<Node>)
    requires RowsGrown(t, t', forest)
    ensures Here(t') == Here(t)
  {
    assert Sub(t'.sub, t.level) == Sub(t.sub, t.level);
  }

  lemma LevelsCompose(t: Tables, t1: Tables, t2: Tables, a: seq<Node>, b: seq<Node>)
    requires LevelsGrown(t, t1, a) && LevelsGrown(t1, t2, b) && t1.level == t.level
    ensures LevelsGrown(t, t2, a + b)
  {
    HeightAppend(a, b);
  }

  lemma Compose(t: Tables, t1: Tables, t2: Tables, a: seq<Node>, b: seq<Node>, ta: string, tb: string)
    requires Grown(t, t1, a, ta) && Grown(t1, t2, b, tb)
    ensures Grown(t, t2, a + b, ta + tb)
  {
    SamePlace(t, t1, a);
    RowsCompose(t, t1, t2, a, b);
    ColumnCompose(t, t1, t2, a, b, MotherColumn);
    ColumnCompose(t, t1, t2, a, b, HeadColumn);
    ColumnCompose(t, t1, t2, a, b, DaughtersColumn);
    MotherCompose(t, t1, t2, ta, tb);
    LevelsCompose(t, t1, t2, a, b);
    CategoriesCompose(t, t1, t2, a, b);
  }

  lemma FreshKept(t: Tables, t': Tables, forest: seq<Node>, text: string)
    requires Grown(t, t', forest, text) && Fresh(t)
    ensures Fresh(t')
  {
    forall l, k | l > t'.level && k > Sub(t'.sub, l)
      ensures Cell(t'.daughters, l, k) == ""
    {
      FreshCell(t, t', forest, l, k);
    }
  }

  lemma FreshCell(t: Tables, t': Tables, forest: seq<Node>, l: int, k: int)
    requires RowsGrown(t, t', forest) && ColumnGrown(t, t', forest, DaughtersColumn) && Fresh(t)
    requires l > t.level && k > Sub(t'.sub, l)
    ensures Cell(t'.daughters, l, k) == ""
  {
    hide Layer, Cell;
    assert Cell(ColumnOf(t', DaughtersColumn), l, k) == Expected(t, forest, DaughtersColumn, l, k);
    assert Sub(t'.sub, l) == Sub(t.sub, l) + |Layer(forest, l - t.level - 1)|;
  }

  /** The tables after a whole expression whose inside turned `Enter(..)` into `tb`. */
  ghost function Leave(tb: Tables, name: string): Tables { CloseLevel(ReportNode(tb, name)) }

  lemma WrapRows(t: Tables, category: string, word: string, tb: Tables, n: Node)
    requires RowsGrown(Enter(t, category, word), tb, n.kids)
    ensures RowsGrown(t, Leave(tb, n.name), [n])
  {
    var ta := Enter(t, category, word);
    forall l
      ensures Sub(tb.sub, l) ==
              Sub(t.sub, l) + (if l > t.level then |Layer([n], l - t.level - 1)| else 0)
    {
      assert Sub(tb.sub, l) ==
             Sub(ta.sub, l) + (if l > ta.level then |Layer(n.kids, l - ta.level - 1)| else 0);
      if l > t.level + 1 { LayerBelow(n, l - t.level - 2); }
    }
  }

  lemma EnterCell(t: Tables, category: string, word: string, c: Column, l: int, k: int)
    ensures Cell(ColumnOf(Enter(t, category, word), c), l, k) ==
      if (l, k) == (t.level + 1, Sub(t.sub, t.level + 1) + 1) && !c.DaughtersColumn?
      then (if c.MotherColumn? then category + Decimal(t.tokens + 1) else word)
      else Cell(ColumnOf(t, c), l, k)
  {
  }

  lemma LeaveCell(tb: Tables, name: string, c: Column, l: int, k: int)
    requires (l, k) != (tb.level - 1, Sub(tb.sub, tb.level - 1))
    ensures Cell(ColumnOf(Leave(tb, name), c), l, k) == Cell(ColumnOf(tb, c), l, k)
  {
  }

  /** What the node being entered shows in its own cell. */
  ghost predicate OwnCell(t: Tables, category: string, word: string, tb: Tables, n: Node) {
    var ta := Enter(t, category, word);
    && n.name == category + Decimal(t.tokens + 1)
    && n.head == word
    && MotherUpdated(ta, tb, n.daughters)
  }

  lemma ExpectedOwn(t: Tables, n: Node, c: Column)
    ensures Expected(t, [n], c, t.level + 1, Sub(t.sub, t.level + 1) + 1) == Reported(n, c)
  {
    assert Layer([n], 0) == [n];
  }

  /** Away from the entered node's own cell, a forest of one node expects what its kids do. */
  lemma ExpectedBelow(t: Tables, category: string, word: string, n: Node, c: Column, l: int, k: int)
    requires (l, k) != (t.level + 1, Sub(t.sub, t.level + 1) + 1)
    ensures Expected(t, [n], c, l, k) == Expected(Enter(t, category, word), n.kids, c, l, k)
  {
    EnterCell(t, category, word, c, l, k);
    EnterSub(t, category, word, l);
    hide Enter;
    if l > t.level + 1 {
      LayerBelow(n, l - t.level - 2);
    } else if l == t.level + 1 {
      assert Layer([n], 0) == [n];
    }
  }

  lemma EnterSub(t: Tables, category: string, word: string, l: int)
    ensures Enter(t, category, word).level == t.level + 1
    ensures Sub(Enter(t, category, word).sub, l) == Sub(t.sub, l) + (if l == t.level + 1 then 1 else 0)
    ensures Here(Enter(t, category, word)) == (t.level + 1, Sub(t.sub, t.level + 1) + 1)
  {
  }

  lemma OwnCellShows(t: Tables, category: string, word: string, tb: Tables, n: Node, c: Column)
    requires Fresh(t) && OwnCell(t, category, word, tb, n)
    ensures Cell(ColumnOf(tb, c), t.level + 1, Sub(t.sub, t.level + 1) + 1) == Reported(n, c)
  {
    var l, k := t.level + 1, Sub(t.sub, t.level + 1) + 1;
    EnterSub(t, category, word, l);
    EnterCell(t, category, word, MotherColumn, l, k);
    EnterCell(t, category, word, HeadColumn, l, k);
    EnterCell(t, category, word, DaughtersColumn, l, k);
    hide Enter;
  }

  lemma WrapCell(t: Tables, category: string, word: string, tb: Tables, n: Node, c: Column, l: int, k: int)
    requires Fresh(t) && OwnCell(t, category, word, tb, n)
    requires RowsGrown(Enter(t, category, word), tb, n.kids)
    requires ColumnGrown(Enter(t, category, word), tb, n.kids, c)
    requires (l, k) != Here(t)
    ensures Cell(ColumnOf(Leave(tb, n.name), c), l, k) == Expected(t, [n], c, l, k)
  {
    hide Enter, Leave, Expected, Fresh, OwnCell, Layer;
    var ta := Enter(t, category, word);
    EnterSub(t, category, word, t.level);
    EnterSub(t, category, word, l);
    assert Sub(tb.sub, t.level) == Sub(ta.sub, t.level);
    LeaveCell(tb, n.name, c, l, k);
    if (l, k) == (t.level + 1, Sub(t.sub, t.level + 1) + 1) {
      ExpectedOwn(t, n, c);
      OwnCellShows(t, category, word, tb, n, c);
    } else {
      assert Cell(ColumnOf(tb, c), l, k) == Expected(ta, n.kids, c, l, k);
      ExpectedBelow(t, category, word, n, c, l, k);
    }
  }

  lemma WrapColumn(t: Tables, category: string, word: string, tb: Tables, n: Node, c: Column)
    requires Fresh(t) && OwnCell(t, category, word, tb, n)
    requires RowsGrown(Enter(t, category, word), tb, n.kids)
    requires ColumnGrown(Enter(t, category, word), tb, n.kids, c)
    ensures ColumnGrown(t, Leave(tb, n.name), [n], c)
  {
    forall l, k | (l, k) != Here(t)
      ensures Cell(ColumnOf(Leave(tb, n.name), c), l, k) == Expected(t, [n], c, l, k)
    {
      WrapCell(t, category, word, tb, n, c, l, k);
    }
  }

  lemma WrapMother(t: Tables, category: string, word: string, tb: Tables, n: Node)
    requires RowsGrown(Enter(t, category, word), tb, n.kids)
    requires ColumnsGrown(Enter(t, category, word), tb, n.kids)
    ensures MotherUpdated(t, Leave(tb, n.name), n.name + " ")
  {
    var ta := Enter(t, category, word);
    var (l, k) := Here(t);
    assert Sub(tb.sub, l) == Sub(ta.sub, l);
    EnterCell(t, category, word, MotherColumn, l, k);
    EnterCell(t, category, word, HeadColumn, l, k);
    EnterCell(t, category, word, DaughtersColumn, l, k);
    assert Cell(ColumnOf(tb, MotherColumn), l, k) == Expected(ta, n.kids, MotherColumn, l, k);
    assert Cell(ColumnOf(tb, HeadColumn), l, k) == Expected(ta, n.kids, HeadColumn, l, k);
    assert Cell(ColumnOf(tb, DaughtersColumn), l, k) == Expected(ta, n.kids, DaughtersColumn, l, k);
    assert Cell(tb.daughters, l, k) + n.name + " " == Cell(t.daughters, l, k) + (n.name + " ");
  }

  lemma EnterLevels(t: Tables, category: string, word: string)
    requires Levels(t)
    ensures Levels(Enter(t, category, word))
    ensures |Enter(t, category, word).index| == Max(|t.index|, t.level + 2)
  {
    if t.level + 1 < |t.index| {
      assert t.index[t.level + 1] == t.level + 1;
    }
  }

  lemma WrapLevels(t: Tables, category: string, word: string, tb: Tables, n: Node)
    requires Levels(t) && LevelsGrown(Enter(t, category, word), tb, n.kids)
    requires tb.level == t.level + 1
    ensures LevelsGrown(t, Leave(tb, n.name), [n])
  {
    EnterLevels(t, category, word);
    HeightBelow(n);
  }

  lemma EnterLine(t: Tables, category: string, word: string)
    ensures Enter(t, category, word).count == t.count + 1
    ensures Line(Enter(t, category, word).nodeCat, t.count + 1) ==
      CategoryLine(category + Decimal(t.tokens + 1), category)
    ensures forall i :: i != t.count + 1 ==> Line(Enter(t, category, word).nodeCat, i) == Line(t.nodeCat, i)
  {
  }

  lemma WrapCategories(t: Tables, category: string, word: string, tb: Tables, n: Node)
    requires n.name == category + Decimal(t.tokens + 1) && n.category == category
    requires CategoriesGrown(Enter(t, category, word), tb, n.kids)
    ensures CategoriesGrown(t, Leave(tb, n.name), [n])
  {
    hide *;
    EnterLines(t, category, word, n);
    LeaveLines(tb, n.name);
    WrapLines(t, Enter(t, category, word), tb, Leave(tb, n.name), n);
  }

  lemma WrapLines(t: Tables, ta: Tables, tb: Tables, tc: Tables, n: Node)
    requires ta.count == t.count + 1 && LinesAdded(t.nodeCat, ta.nodeCat, t.count, [n])
    requires CategoriesGrown(ta, tb, n.kids) && tc.nodeCat == tb.nodeCat && tc.count == tb.count
    ensures CategoriesGrown(t, tc, [n])
  {
    hide Preorder, LinesAdded;
    PreorderBelow(n);
    LinesJoin(t.nodeCat, ta.nodeCat, tb.nodeCat, t.count, [n], Preorder(n.kids));
  }

  lemma LeaveLines(tb: Tables, name: string)
    ensures Leave(tb, name).nodeCat == tb.nodeCat && Leave(tb, name).count == tb.count
  {
  }

  lemma EnterLines(t: Tables, category: string, word: string, n: Node)
    requires n.name == category + Decimal(t.tokens + 1) && n.category == category
    ensures Enter(t, category, word).count == t.count + 1
    ensures LinesAdded(t.nodeCat, Enter(t, category, word).nodeCat, t.count, [n])
  {
    EnterLine(t, category, word);
    hide Enter, CategoryLine, Line;
    assert LineOf(n) == CategoryLine(n.name, n.category);
  }

  lemma EnteredLevel(t: Tables, category: string, word: string, tb: Tables, kids: seq<Node>)
    requires RowsGrown(Enter(t, category, word), tb, kids)
    ensures tb.level == t.level + 1
  {
  }

  lemma Wrap(t: Tables, category: string, word: string, tb: Tables, n: Node)
    requires Ready(t) && n.category == category && n.head == word
    requires n.name == category + Decimal(t.tokens + 1)
    requires Grown(Enter(t, category, word), tb, n.kids, n.daughters)
    ensures Grown(t, Leave(tb, n.name), [n], n.name + " ")
  {
    hide Enter, Leave, RowsGrown, ColumnGrown, LevelsGrown, CategoriesGrown, Levels, Fresh;
    assert RowsGrown(Enter(t, category, word), tb, n.kids);
    assert tb.level == t.level + 1 by { EnteredLevel(t, category, word, tb, n.kids); }
    WrapRows(t, category, word, tb, n);
    WrapColumn(t, category, word, tb, n, MotherColumn);
    WrapColumn(t, category, word, tb, n, HeadColumn);
    WrapColumn(t, category, word, tb, n, DaughtersColumn);
    WrapMother(t, category, word, tb, n);
    WrapLevels(t, category, word, tb, n);
    WrapCategories(t, category, word, tb, n);
  }

  lemma EnterReady(t: Tables, category: string, word: string)
    requires Ready(t)
    ensures Ready(Enter(t, category, word))
  {
    var ta := Enter(t, category, word);
    EnterLevels(t, category, word);
    forall l, k | l > ta.level && k > Sub(ta.sub, l)
      ensures Cell(ta.daughters, l, k) == ""
    {
      assert Sub(ta.sub, l) == Sub(t.sub, l);
    }
  }

  lemma LeafGrown(t: Tables)
    requires Ready(t)
    ensures Grown(t, AddLeaf(t), [], "P" + Decimal(t.leaves + 1))
  {
    hide Layer, Decimal, Fresh;
    var t' := AddLeaf(t);
    forall d: nat ensures Layer([], d) == [] {
      EmptyLayer(d);
    }
    var (l, k) := Here(t);
    assert Cell(t'.daughters, l, k) == Cell(t.daughters, l, k) + ("P" + Decimal(t.leaves + 1));
  }

  lemma WalkUnfolds(t: Tables, e: Expression)
    ensures var inside := LabelSub(e.sub, t.tokens + 1, t.leaves);
      var name := e.cat.text + Decimal(t.tokens + 1);
      && Walk(t, e) == Leave(WalkSub(Enter(t, e.cat.text, e.head.text), e.sub), name)
      && Label(e, t.tokens, t.leaves) ==
           Labelled([Node(name, e.cat.text, e.head.text, inside.text, inside.kids)],
                    name + " ", inside.nodes, inside.leaves)
  {
    hide WalkSub, LabelSub, Enter;
  }

  lemma StepCounts(t: Tables, category: string, word: string, name: string)
    ensures Enter(t, category, word).tokens == t.tokens + 1 && Enter(t, category, word).leaves == t.leaves
    ensures Leave(t, name).tokens == t.tokens && Leave(t, name).leaves == t.leaves
    ensures AddLeaf(t).tokens == t.tokens && AddLeaf(t).leaves == t.leaves + 1
  {
  }

  lemma StaysReady(t: Tables, t': Tables, forest: seq<Node>, text: string)
    requires Ready(t) && Grown(t, t', forest, text)
    ensures Ready(t')
  {
    hide RowsGrown, ColumnGrown, MotherUpdated, CategoriesGrown, Levels, Expected;
    assert Levels(t');
    assert 0 <= t'.level < |t'.index| by { LevelsKept(t, t', forest); }
    FreshKept(t, t', forest, text);
  }

  lemma LevelsKept(t: Tables, t': Tables, forest: seq<Node>)
    requires LevelsGrown(t, t', forest)
    ensures 0 <= t'.level < |t'.index|
  {
    hide Height;
  }

  /** The main result on the actions: a walk over a derivation adds exactly its labelled tree. */
  lemma {:induction false} WalkGrows(t: Tables, e: Expression)
    requires Ready(t)
    ensures var a := Label(e, t.tokens, t.leaves);
      && Grown(t, Walk(t, e), a.kids, a.text)
      && Ready(Walk(t, e))
      && Walk(t, e).tokens == a.nodes && Walk(t, e).leaves == a.leaves
    decreases e
  {
    var n, p := t.tokens, t.leaves;
    hide *;
    var ta := Enter(t, e.cat.text, e.head.text);
    var inside := LabelSub(e.sub, n + 1, p);
    var name := e.cat.text + Decimal(n + 1);
    var node := Node(name, e.cat.text, e.head.text, inside.text, inside.kids);
    WalkUnfolds(t, e);
    EnterReady(t, e.cat.text, e.head.text);
    StepCounts(t, e.cat.text, e.head.text, name);
    WalkSubGrows(ta, e.sub);
    StepCounts(WalkSub(ta, e.sub), e.cat.text, e.head.text, name);
    Wrap(t, e.cat.text, e.head.text, WalkSub(ta, e.sub), node);
    StaysReady(t, Walk(t, e), [node], name + " ");
  }

  lemma WalkSubUnfolds(t: Tables, s: SubExpression)
    ensures s.One? ==>
      WalkSub(t, s) == Walk(t, s.e) && LabelSub(s, t.tokens, t.leaves) == Label(s.e, t.tokens, t.leaves)
    ensures s.Word? ==>
      WalkSub(t, s) == AddLeaf(t) && LabelSub(s, t.tokens, t.leaves) ==
         Labelled([], "P" + Decimal(t.leaves + 1), t.tokens, t.leaves + 1)
    ensures s.More? ==> WalkSub(t, s) == Walk(WalkSub(t, s.s), s.e)
    ensures s.MoreWord? ==> WalkSub(t, s) == AddLeaf(WalkSub(t, s.s))
  {
    hide Walk, AddLeaf, Label, Decimal;
  }

  lemma LabelSubUnfolds(s: SubExpression, nodes: nat, leaves: nat)
    ensures s.More? ==>
      var a := LabelSub(s.s, nodes, leaves); var b := Label(s.e, a.nodes, a.leaves);
      LabelSub(s, nodes, leaves) == Labelled(a.kids + b.kids, a.text + b.text, b.nodes, b.leaves)
    ensures s.MoreWord? ==>
      var a := LabelSub(s.s, nodes, leaves);
      LabelSub(s, nodes, leaves) ==
        Labelled(a.kids, a.text + ("P" + Decimal(a.leaves + 1)), a.nodes, a.leaves + 1)
  {
    hide Label, Decimal;
    if s.MoreWord? {
      var a := LabelSub(s.s, nodes, leaves);
      assert a.text + "P" + Decimal(a.leaves + 1) == a.text + ("P" + Decimal(a.leaves + 1));
    }
  }

  /** One more leaf: the tables grow by nothing but its number. */
  lemma LeafGrows(t: Tables)
    requires Ready(t)
    ensures Grown(t, AddLeaf(t), [], "P" + Decimal(t.leaves + 1))
    ensures Ready(AddLeaf(t)) && AddLeaf(t).tokens == t.tokens && AddLeaf(t).leaves == t.leaves + 1
  {
    hide *;
    LeafGrown(t);
    StepCounts(t, "", "", "");
    StaysReady(t, AddLeaf(t), [], "P" + Decimal(t.leaves + 1));
  }

  lemma {:induction false} WalkSubGrows(t: Tables, s: SubExpression)
    requires Ready(t)
    ensures var a := LabelSub(s, t.tokens, t.leaves);
      && Grown(t, WalkSub(t, s), a.kids, a.text)
      && Ready(WalkSub(t, s))
      && WalkSub(t, s).tokens == a.nodes && WalkSub(t, s).leaves == a.leaves
    decreases s
  {
    var n, p := t.tokens, t.leaves;
    hide *;
    WalkSubUnfolds(t, s);
    LabelSubUnfolds(s, n, p);
    match s
    case One(e) => WalkGrows(t, e);
    case More(s', e) =>
      var a := LabelSub(s', n, p);
      WalkSubGrows(t, s');
      var t1 := WalkSub(t, s');
      WalkGrows(t1, e);
      var b := Label(e, a.nodes, a.leaves);
      Compose(t, t1, Walk(t1, e), a.kids, b.kids, a.text, b.text);
    case Word(_) => LeafGrows(t);
    case MoreWord(s', _) =>
      var a := LabelSub(s', n, p);
      WalkSubGrows(t, s');
      var t1 := WalkSub(t, s');
      LeafGrows(t1);
      var text := "P" + Decimal(t1.leaves + 1);
      Compose(t, t1, AddLeaf(t1), a.kids, [], a.text, text);
      assert a.kids + [] == a.kids;
  }

  // ------------------------------------------------------------------------------------------
  // The tables of a whole parse
  // ------------------------------------------------------------------------------------------

  /** After a whole parse, cell (l, k) of every table describes the k-th node at depth l of the
      labelled tree, nothing else was written but the root's own report, and index1 is one more
      than the depth of the tree. */
  lemma ParsedTables(e: Expression)
    ensures var t := Walk(NO_TABLES, e); var root := [LabelledTree(e)];
      && t.level == 0
      && |t.index| == Height(root) + 1
      && (forall l :: l >= 1 ==> Sub(t.sub, l) == |Layer(root, l - 1)|)
      && (forall l, k :: l >= 1 && 1 <= k <= |Layer(root, l - 1)| ==>
            && Cell(t.mother, l, k) == Layer(root, l - 1)[k - 1].name
            && Cell(t.head, l, k) == Layer(root, l - 1)[k - 1].head
            && Cell(t.daughters, l, k) == Layer(root, l - 1)[k - 1].daughters)
      && t.count == |Preorder(root)|
      && (forall i :: 1 <= i <= t.count ==>
            Line(t.nodeCat, i)
            == "(Node-Category\t" + Preorder(root)[i - 1].name + "\t" + Preorder(root)[i - 1].category + ")\n")
  {
    var t := Walk(NO_TABLES, e);
    var root := [LabelledTree(e)];
    WholeTree(e);
    hide Walk, LabelledTree;
    forall l | l >= 1
      ensures Sub(t.sub, l) == |Layer(root, l - 1)|
    {
      assert Sub(NO_TABLES.sub, l) == 0;
    }
    forall l, k | l >= 1 && 1 <= k <= |Layer(root, l - 1)|
      ensures
            && Cell(t.mother, l, k) == Layer(root, l - 1)[k - 1].name
            && Cell(t.head, l, k) == Layer(root, l - 1)[k - 1].head
            && Cell(t.daughters, l, k) == Layer(root, l - 1)[k - 1].daughters
    {
      TreeCell(t, root, MotherColumn, l, k);
      TreeCell(t, root, HeadColumn, l, k);
      TreeCell(t, root, DaughtersColumn, l, k);
    }
  }

  lemma WholeTree(e: Expression)
    ensures Grown(NO_TABLES, Walk(NO_TABLES, e), [LabelledTree(e)], LabelledTree(e).name + " ")
  {
    assert Ready(NO_TABLES);
    WalkGrows(NO_TABLES, e);
    WalkUnfolds(NO_TABLES, e);
    hide Walk, Grown;
  }

  lemma TreeCell(t: Tables, root: seq<Node>, c: Column, l: int, k: int)
    requires ColumnsGrown(NO_TABLES, t, root) && l >= 1 && 1 <= k <= |Layer(root, l - 1)|
    ensures Cell(ColumnOf(t, c), l, k) == Reported(Layer(root, l - 1)[k - 1], c)
  {
    hide Layer;
    assert Cell(ColumnOf(t, c), l, k) == Expected(NO_TABLES, root, c, l, k);
  }

  /** Cells outside the tree stay empty; the root's report in cell (0, 0) is never printed. */
  lemma UntouchedCells(e: Expression, c: Column, l: int, k: int)
    requires l >= 1 ==> !(1 <= k <= |Layer([LabelledTree(e)], l - 1)|)
    requires (l, k) != (0, 0)
    ensures Cell(ColumnOf(Walk(NO_TABLES, e), c), l, k) == ""
  {
    WholeTree(e);
    hide Walk, LabelledTree, Layer;
    assert Cell(ColumnOf(Walk(NO_TABLES, e), c), l, k) == Expected(NO_TABLES, [LabelledTree(e)], c, l, k);
  }

  // ------------------------------------------------------------------------------------------
  // What the print loops emit
  // ------------------------------------------------------------------------------------------

  /** One Head-Level-Mother-Daughters fact. */
  datatype Fact = Fact(head: string, level: int, mother: string, daughters: string)

  ghost function RowFacts(row: seq<Node>, level: int): (r: seq<Fact>)
    ensures |r| == |row|
    ensures forall i :: 0 <= i < |row| ==> r[i] == Fact(row[i].head, level, row[i].name, row[i].daughters)
  {
    seq(|row|, i requires 0 <= i < |row| => Fact(row[i].head, level, row[i].name, row[i].daughters))
  }

  lemma {:induction false} HeightChildren(forest: seq<Node>)
    requires forest != []
    ensures Height(Children(forest)) == Height(forest) - 1
  {
    if |forest| == 1 {
      assert forest == [forest[0]];
      assert Children(forest) == forest[0].kids + [] == forest[0].kids;
      HeightBelow(forest[0]);
    } else {
      HeightChildren(forest[1..]);
      HeightAppend(forest[0].kids, Children(forest[1..]));
    }
  }

  /** All nodes of the forest, level by level. */
  ghost function LevelOrder(forest: seq<Node>): seq<Node>
    decreases Height(forest)
  {
    if forest == [] then [] else
      HeightChildren(forest);
      forest + LevelOrder(Children(forest))
  }

  ghost function LevelFacts(forest: seq<Node>, level: int): seq<Fact>
    decreases Height(forest)
  {
    if forest == [] then [] else
      HeightChildren(forest);
      RowFacts(forest, level) + LevelFacts(Children(forest), level + 1)
  }

  /** The facts are those of the nodes, in order. */
  ghost predicate FactsOf(facts: seq<Fact>, nodes: seq<Node>) {
    |facts| == |nodes| && forall i :: 0 <= i < |nodes| ==>
      facts[i].head == nodes[i].head && facts[i].mother == nodes[i].name && facts[i].daughters == nodes[i].daughters
  }

  lemma FactsJoin(f: seq<Fact>, g: seq<Fact>, m: seq<Node>, n: seq<Node>)
    requires FactsOf(f, m) && FactsOf(g, n)
    ensures FactsOf(f + g, m + n)
  {
  }

  lemma {:induction false} FactsFollowLevels(forest: seq<Node>, level: int)
    ensures FactsOf(LevelFacts(forest, level), LevelOrder(forest))
    decreases Height(forest)
  {
    if forest != [] {
      HeightChildren(forest);
      FactsFollowLevels(Children(forest), level + 1);
      assert FactsOf(RowFacts(forest, level), forest);
      FactsJoin(RowFacts(forest, level), LevelFacts(Children(forest), level + 1),
                forest, LevelOrder(Children(forest)));
    }
  }

  lemma {:induction false} PreorderByLevel(forest: seq<Node>)
    ensures multiset(Preorder(forest)) == multiset(forest) + multiset(Preorder(Children(forest)))
  {
    if forest != [] {
      PreorderByLevel(forest[1..]);
      PreorderAppend(forest[0].kids, Children(forest[1..]));
      assert forest == [forest[0]] + forest[1..];
    }
  }

  /** Level order lists every node of the tree exactly once. */
  lemma {:induction false} LevelOrderIsPreorder(forest: seq<Node>)
    ensures multiset(LevelOrder(forest)) == multiset(Preorder(forest))
    decreases Height(forest)
  {
    if forest != [] {
      HeightChildren(forest);
      LevelOrderIsPreorder(Children(forest));
      PreorderByLevel(forest);
    }
  }

  lemma {:induction false} LayerShift(forest: seq<Node>, d: nat)
    ensures Layer(forest, d + 1) == Children(Layer(forest, d))
    decreases d
  {
    if d != 0 { LayerShift(Children(forest), d - 1); }
  }

  lemma {:induction false} LayerHeight(forest: seq<Node>, d: nat)
    requires d <= Height(forest)
    ensures Height(Layer(forest, d)) == Height(forest) - d
    decreases d
  {
    if d != 0 {
      HeightChildren(forest);
      LayerHeight(Children(forest), d - 1);
    }
  }

  lemma NoNodes(forest: seq<Node>)
    ensures Height(forest) == 0 <==> forest == []
  {
  }

  // The facts of row `i`, from column 1 to column `n`.
  function RowOf(t: Tables, i: int, n: nat): (r: seq<Fact>)
    ensures |r| == n
    ensures forall j :: 0 <= j < n ==>
      r[j] == Fact(Cell(t.head, i, j + 1), i, Cell(t.mother, i, j + 1), Cell(t.daughters, i, j + 1))
  {
    if n == 0 then []
    else RowOf(t, i, n - 1) + [Fact(Cell(t.head, i, n), i, Cell(t.mother, i, n), Cell(t.daughters, i, n))]
  }

  function Width(t: Tables, i: int): nat { if Sub(t.sub, i) < 0 then 0 else Sub(t.sub, i) }

  /** The facts of the first `n` rows. */
  function RowsOf(t: Tables, n: nat): seq<Fact> {
    if n == 0 then [] else RowsOf(t, n - 1) + RowOf(t, n, Width(t, n))
  }

  /** The first `n` lines of node_cat. */
  function LinesOf(t: Tables, n: nat): seq<string> {
    if n == 0 then [] else LinesOf(t, n - 1) + [Line(t.nodeCat, n)]
  }

  /** The facts of the levels of a tree down to level `n`. */
  ghost function FactsTo(forest: seq<Node>, n: nat): seq<Fact> {
    if n == 0 then [] else FactsTo(forest, n - 1) + RowFacts(Layer(forest, n - 1), n)
  }

  lemma LevelFactsUnfold(row: seq<Node>, level: int)
    ensures row != [] ==>
      LevelFacts(row, level) == RowFacts(row, level) + LevelFacts(Children(row), level + 1)
    ensures row == [] ==> LevelFacts(row, level) == []
  {
    hide RowFacts, Children;
  }

  lemma {:induction false} LevelFactsSplit(forest: seq<Node>, n: nat)
    requires n <= Height(forest)
    ensures LevelFacts(forest, 1) == FactsTo(forest, n) + LevelFacts(Layer(forest, n), n + 1)
  {
    hide RowFacts, LevelFacts, Height, Children;
    if n == 0 {
      assert FactsTo(forest, 0) == [] && Layer(forest, 0) == forest;
    } else {
      LevelFactsSplit(forest, n - 1);
      hide Layer;
      LayerHeight(forest, n - 1);
      LayerShift(forest, n - 1);
      NoNodes(Layer(forest, n - 1));
      LevelFactsUnfold(Layer(forest, n - 1), n);
    }
  }

  lemma RowMatches(e: Expression, i: int)
    requires i >= 1
    ensures var t := Walk(NO_TABLES, e);
      RowOf(t, i, Width(t, i)) == RowFacts(Layer([LabelledTree(e)], i - 1), i)
  {
    ParsedTables(e);
  }

  lemma {:induction false} RowsMatch(e: Expression, n: nat)
    ensures RowsOf(Walk(NO_TABLES, e), n) == FactsTo([LabelledTree(e)], n)
  {
    if n != 0 {
      RowsMatch(e, n - 1);
      RowMatches(e, n);
    }
  }

  /** The print loops list the facts of the labelled tree level by level, and its categories in
      preorder. */
  lemma PrintedTree(e: Expression)
    ensures var t := Walk(NO_TABLES, e); var root := [LabelledTree(e)];
      && |t.index| >= 1
      && RowsOf(t, |t.index| - 1) == LevelFacts(root, 1)
      && |LinesOf(t, t.count)| == |Preorder(root)|
      && forall i :: 0 <= i < |Preorder(root)| ==>
           LinesOf(t, t.count)[i]
           == "(Node-Category\t" + Preorder(root)[i].name + "\t" + Preorder(root)[i].category + ")\n"
  {
    var t := Walk(NO_TABLES, e);
    var root := [LabelledTree(e)];
    ParsedTables(e);
    hide Walk, LabelledTree, Layer, Preorder;
    RowsMatch(e, Height(root));
    LevelFactsSplit(root, Height(root));
    LayerHeight(root, Height(root));
    NoNodes(Layer(root, Height(root)));
    LevelFactsUnfold(Layer(root, Height(root)), Height(root) + 1);
    LinesMatch(t, t.count);
  }

  lemma {:induction false} LinesMatch(t: Tables, n: nat)
    ensures |LinesOf(t, n)| == n
    ensures forall i :: 0 <= i < n ==> LinesOf(t, n)[i] == Line(t.nodeCat, i + 1)
  {
    if n != 0 { LinesMatch(t, n - 1); }
  }
}
