/** What the parser's stacks stand for: a stack of unfinished expressions with the mid-rule actions
    already run on them. */
module LalrConfig {
  import opened Grammar
  import opened LalrTables
  import opened TreeTables

  /** How far the innermost expression has got, mid-rule reductions included. */
  datatype Stage =
    | SBottom
    | SOpen(open: Token)
    | SOpened(open: Token)
    | SCat(open: Token, cat: Token)
    | SNamed(open: Token, cat: Token)
    | SHead(open: Token, cat: Token, head: Token)
    | SHeaded(open: Token, cat: Token, head: Token)
    | SSlashed(open: Token, cat: Token, head: Token, slash: Token)
    | SIn(f: Frame)
    | SWord(f: Frame, w: Token)
    | SExpr(f: Frame, e: Expression)
    | SReported(f: Frame)
    | SClosed(f: Frame, close: Token)
    | SWhole(e: Expression)
    | SAccepted(e: Expression)

  datatype Config = Config(outer: seq<Frame>, stage: Stage)

  const BOTTOM := Config([], SBottom)

  ghost predicate Sound(c: Config) {
    && (c.stage.SBottom? || c.stage.SWhole? || c.stage.SAccepted? ==> c.outer == [])
    && (c.stage.SReported? || c.stage.SClosed? ==> c.stage.f.sub.HasSub?)
  }

  // ------------------------------------------------------------------------------------------
  // States
  // ------------------------------------------------------------------------------------------

  /** The states from the left parenthesis to the second category, mid-rule symbols included. */
  const HEADER: seq<int> := [1, 3, 5, 6, 7, 8, 9, 10]

  ghost function SubStates(f: Frame): seq<int> { if f.sub.HasSub? then [13] else [] }

  ghost function FrameStates(f: Frame): seq<int> { HEADER + SubStates(f) }

  ghost function OuterStates(fs: seq<Frame>): seq<int> {
    if fs == [] then [0] else OuterStates(fs[..|fs| - 1]) + FrameStates(fs[|fs| - 1])
  }

  /** How many states of the header the innermost expression has on the stack. */
  ghost function Progress(s: Stage): (n: nat)
    ensures n <= 8
  {
    match s
    case SBottom => 0
    case SOpen(_) => 1
    case SOpened(_) => 2
    case SCat(_, _) => 3
    case SNamed(_, _) => 4
    case SHead(_, _, _) => 5
    case SHeaded(_, _, _) => 6
    case SSlashed(_, _, _, _) => 7
    case SWhole(_) => 0
    case SAccepted(_) => 0
    case _ => 8
  }

  /** The states above the header. */
  ghost function Extra(s: Stage): seq<int> {
    match s
    case SIn(f) => SubStates(f)
    case SWord(f, _) => SubStates(f) + [if f.sub.HasSub? then 14 else 11]
    case SExpr(f, _) => SubStates(f) + [if f.sub.HasSub? then 15 else 12]
    case SReported(f) => SubStates(f) + [16]
    case SClosed(f, _) => SubStates(f) + [16, 17]
    case SWhole(_) => [2]
    case SAccepted(_) => [2, 4]
    case _ => []
  }

  ghost function StageStates(s: Stage): seq<int> { HEADER[..Progress(s)] + Extra(s) }

  ghost function Stack(c: Config): seq<int> { OuterStates(c.outer) + StageStates(c.stage) }

  /** The state on top of the stack. */
  ghost function TopState(s: Stage): (n: int)
    ensures 0 <= n < 18
  {
    match s
    case SBottom => 0
    case SOpen(_) => 1
    case SOpened(_) => 3
    case SCat(_, _) => 5
    case SNamed(_, _) => 6
    case SHead(_, _, _) => 7
    case SHeaded(_, _, _) => 8
    case SSlashed(_, _, _, _) => 9
    case SIn(f) => if f.sub.HasSub? then 13 else 10
    case SWord(f, _) => if f.sub.HasSub? then 14 else 11
    case SExpr(f, _) => if f.sub.HasSub? then 15 else 12
    case SReported(_) => 16
    case SClosed(_, _) => 17
    case SWhole(_) => 2
    case SAccepted(_) => 4
  }

  lemma StackTop(c: Config)
    requires Sound(c)
    ensures Stack(c) != [] && Stack(c)[|Stack(c)| - 1] == TopState(c.stage)
  {
    if c.stage.SBottom? { assert OuterStates([]) == [0]; }
  }

  ghost function Depth(c: Config): nat {
    |c.outer| + (if c.stage.SBottom? || c.stage.SWhole? || c.stage.SAccepted? then 0 else 1)
  }

  /** The number of stack cells below the innermost expression. */
  ghost function Base(fs: seq<Frame>): (n: nat)
    ensures n >= 1
  {
    if fs == [] then 1
    else Base(fs[..|fs| - 1]) + 8 + (if fs[|fs| - 1].sub.HasSub? then 1 else 0)
  }

  ghost function ExtraSize(s: Stage): nat {
    match s
    case SIn(f) => if f.sub.HasSub? then 1 else 0
    case SWord(f, _) => if f.sub.HasSub? then 2 else 1
    case SExpr(f, _) => if f.sub.HasSub? then 2 else 1
    case SReported(f) => if f.sub.HasSub? then 2 else 1
    case SClosed(f, _) => if f.sub.HasSub? then 3 else 2
    case SWhole(_) => 1
    case SAccepted(_) => 2
    case _ => 0
  }

  ghost function Size(c: Config): nat { Base(c.outer) + Progress(c.stage) + ExtraSize(c.stage) }

  lemma {:induction false} OuterSize(fs: seq<Frame>)
    ensures |OuterStates(fs)| == Base(fs) <= 9 * |fs| + 1
  {
    if fs != [] { OuterSize(fs[..|fs| - 1]); }
  }

  /** An unfinished expression occupies at most nine cells of the stack, the innermost one eleven. */
  lemma StackSize(c: Config)
    ensures |Stack(c)| == Size(c) <= 9 * Depth(c) + 3
  {
    OuterSize(c.outer);
  }

  // ------------------------------------------------------------------------------------------
  // Readings
  // ------------------------------------------------------------------------------------------

  ghost function WithWord(f: Frame, w: Token): Frame { f.(sub := HasSub(AddWord(f.sub, w))) }

  ghost function WithExpression(f: Frame, e: Expression): Frame {
    f.(sub := HasSub(AddExpression(f.sub, e)))
  }

  ghost function ReadingOf(c: Config): Reading {
    match c.stage
    case SBottom => START
    case SOpen(o) => Reading(c.outer, Opened(o))
    case SOpened(o) => Reading(c.outer, Opened(o))
    case SCat(o, n) => Reading(c.outer, Named(o, n))
    case SNamed(o, n) => Reading(c.outer, Named(o, n))
    case SHead(o, n, h) => Reading(c.outer, Headed(o, n, h))
    case SHeaded(o, n, h) => Reading(c.outer, Headed(o, n, h))
    case SSlashed(o, n, h, s) => Reading(c.outer, Slashed(o, n, h, s))
    case SIn(f) => Reading(c.outer, In(f))
    case SWord(f, w) => Reading(c.outer, In(WithWord(f, w)))
    case SExpr(f, e) => Reading(c.outer, In(WithExpression(f, e)))
    case SReported(f) => Reading(c.outer, In(f))
    case SClosed(f, close) =>
      if f.sub.HasSub? then Completed(c.outer, Finish(f, close)) else Reading(c.outer, In(f))
    case SWhole(e) => Reading([], Whole(e))
    case SAccepted(e) => Reading([], Whole(e))
  }

  // ------------------------------------------------------------------------------------------
  // Tables
  // ------------------------------------------------------------------------------------------

  ghost function FrameTables(t: Tables, f: Frame): Tables {
    var inside := Enter(t, f.cat.text, f.head.text);
    if f.sub.HasSub? then WalkSub(inside, f.sub.s) else inside
  }

  ghost function OuterTables(fs: seq<Frame>): Tables {
    if fs == [] then NO_TABLES else FrameTables(OuterTables(fs[..|fs| - 1]), fs[|fs| - 1])
  }

  /** The number of expressions in a derivation. */
  ghost function Nodes(e: Expression): nat { 1 + NodesSub(e.sub) }

  ghost function NodesSub(s: SubExpression): nat {
    match s
    case One(e) => Nodes(e)
    case More(s', e) => NodesSub(s') + Nodes(e)
    case Word(_) => 0
    case MoreWord(s', _) => NodesSub(s')
  }

  ghost function NodesOuter(fs: seq<Frame>): nat {
    if fs == [] then 0
    else NodesOuter(fs[..|fs| - 1]) + 1 + (if fs[|fs| - 1].sub.HasSub? then NodesSub(fs[|fs| - 1].sub.s) else 0)
  }

  lemma {:induction false} WalkCounts(t: Tables, e: Expression)
    ensures Walk(t, e).tokens == t.tokens + Nodes(e)
    decreases e
  {
    WalkSubCounts(Enter(t, e.cat.text, e.head.text), e.sub);
  }

  lemma {:induction false} WalkSubCounts(t: Tables, s: SubExpression)
    ensures WalkSub(t, s).tokens == t.tokens + NodesSub(s)
    decreases s
  {
    match s
    case One(e) => WalkCounts(t, e);
    case More(s', e) => WalkSubCounts(t, s'); WalkCounts(WalkSub(t, s'), e);
    case Word(_) =>
    case MoreWord(s', _) => WalkSubCounts(t, s');
  }

  lemma {:induction false} OuterCounts(fs: seq<Frame>)
    ensures OuterTables(fs).tokens == NodesOuter(fs)
  {
    if fs != [] {
      var f := fs[|fs| - 1];
      OuterCounts(fs[..|fs| - 1]);
      if f.sub.HasSub? {
        WalkSubCounts(Enter(OuterTables(fs[..|fs| - 1]), f.cat.text, f.head.text), f.sub.s);
      }
    }
  }

  /** The label of an expression that starts after the given unfinished ones. */
  ghost function NameAfter(fs: seq<Frame>, cat: Token): string {
    cat.text + Decimal(NodesOuter(fs) + 1)
  }

  ghost function StageTables(t: Tables, s: Stage): Tables {
    match s
    case SBottom => t
    case SOpen(_) => t
    case SOpened(_) => OpenLevel(t)
    case SCat(_, _) => OpenLevel(t)
    case SNamed(_, n) => NameNode(OpenLevel(t), n.text)
    case SHead(_, n, _) => NameNode(OpenLevel(t), n.text)
    case SHeaded(_, n, h) => Enter(t, n.text, h.text)
    case SSlashed(_, n, h, _) => Enter(t, n.text, h.text)
    case SIn(f) => FrameTables(t, f)
    case SWord(f, _) => FrameTables(t, f)
    case SExpr(f, e) => Walk(FrameTables(t, f), e)
    case SReported(f) => ReportNode(FrameTables(t, f), f.cat.text + Decimal(t.tokens + 1))
    case SClosed(f, _) => ReportNode(FrameTables(t, f), f.cat.text + Decimal(t.tokens + 1))
    case SWhole(e) => Walk(t, e)
    case SAccepted(e) => Walk(t, e)
  }

  ghost function TablesOf(c: Config): Tables { StageTables(OuterTables(c.outer), c.stage) }

  // ------------------------------------------------------------------------------------------
  // Semantic values
  // ------------------------------------------------------------------------------------------

  /** The value cells that are read later hold what they should: the third cell of every
      unfinished expression its label. */
  ghost predicate OuterFits(fs: seq<Frame>, values: seq<string>) {
    fs != [] ==>
      var rest := fs[..|fs| - 1];
      && OuterFits(rest, values)
      && Base(rest) + 2 < |values|
      && values[Base(rest) + 2] == NameAfter(rest, fs[|fs| - 1].cat)
  }

  /** What the innermost expression's label cell must hold once its first category is shifted. */
  ghost function OwnName(c: Config): string
    requires Progress(c.stage) >= 3
  {
    match c.stage
    case SCat(_, n) => n.text
    case SNamed(_, n) => NameAfter(c.outer, n)
    case SHead(_, n, _) => NameAfter(c.outer, n)
    case SHeaded(_, n, _) => NameAfter(c.outer, n)
    case SSlashed(_, n, _, _) => NameAfter(c.outer, n)
    case SIn(f) => NameAfter(c.outer, f.cat)
    case SWord(f, _) => NameAfter(c.outer, f.cat)
    case SExpr(f, _) => NameAfter(c.outer, f.cat)
    case SReported(f) => NameAfter(c.outer, f.cat)
    case SClosed(f, _) => NameAfter(c.outer, f.cat)
  }

  ghost predicate StageFits(c: Config, values: seq<string>)
    requires |values| == Size(c)
  {
    var base := Base(c.outer);
    && (Progress(c.stage) >= 3 ==> values[base + 2] == OwnName(c))
    && (c.stage.SHead? ==> values[base + 4] == c.stage.head.text)
  }

  ghost predicate Fits(values: seq<string>, c: Config) {
    |values| == Size(c) && OuterFits(c.outer, values) && StageFits(c, values)
  }

  lemma {:induction false} OuterFitsPrefix(fs: seq<Frame>, a: seq<string>, b: seq<string>)
    requires OuterFits(fs, a) && Base(fs) <= |a| && Base(fs) <= |b|
    requires forall i :: 0 <= i < Base(fs) ==> a[i] == b[i]
    ensures OuterFits(fs, b)
  {
    if fs != [] {
      OuterFitsPrefix(fs[..|fs| - 1], a, b);
    }
  }

  // ------------------------------------------------------------------------------------------
  // Shifting
  // ------------------------------------------------------------------------------------------

  ghost function ShiftToken(c: Config, t: Token): Config {
    match c.stage
    case SBottom => c.(stage := SOpen(t))
    case SOpened(o) => c.(stage := SCat(o, t))
    case SNamed(o, n) => c.(stage := SHead(o, n, t))
    case SHeaded(o, n, h) => c.(stage := SSlashed(o, n, h, t))
    case SSlashed(o, n, h, s) => c.(stage := SIn(Frame(o, n, h, s, t, NoSub)))
    case SIn(f) =>
      if t.code == LEFT_PAREN then Config(c.outer + [f], SOpen(t)) else c.(stage := SWord(f, t))
    case SReported(f) => c.(stage := SClosed(f, t))
    case _ => c
  }

  ghost function ShiftEnd(c: Config): Config {
    if c.stage.SWhole? then c.(stage := SAccepted(c.stage.e)) else c
  }

  /** A reported node waits for its right parenthesis: the token seen cannot extend it. */
  ghost predicate Waiting(c: Config, code: int) {
    c.stage.SReported? ==> code != LEFT_PAREN && code != STRING
  }

  /** The configurations that can take a token of this number. */
  ghost predicate CanTake(s: Stage, code: int) {
    match s
    case SBottom => code == LEFT_PAREN
    case SOpened(_) => code == TOK_CATEGORY
    case SNamed(_, _) => code == STRING
    case SHeaded(_, _, _) => code == SLASH
    case SSlashed(_, _, _, _) => code == TOK_CATEGORY
    case SIn(_) => code == LEFT_PAREN || code == STRING
    case SReported(_) => code == RIGHT_PAREN
    case _ => false
  }

  lemma TablesTake(c: Config, t: Token)
    requires Sound(c) && t.code > 0
    ensures ActionOn(TopState(c.stage), Translate(t.code)).Shift? <==> CanTake(c.stage, t.code)
    ensures CanTake(c.stage, t.code) ==>
      ActionOn(TopState(c.stage), Translate(t.code)).state == TopState(ShiftToken(c, t).stage)
  {
    hide ActionOn, Translate;
    Translations(t.code);
    TableDecides(TopState(c.stage), Translate(t.code));
  }

  lemma ShiftReads(c: Config, t: Token)
    requires Sound(c) && CanTake(c.stage, t.code)
    ensures Sound(ShiftToken(c, t))
    ensures Feed(ReadingOf(c), t) == At(ReadingOf(ShiftToken(c, t)))
    ensures TablesOf(ShiftToken(c, t)) == TablesOf(c)
  {
    if c.stage.SIn? && t.code == LEFT_PAREN {
      assert (c.outer + [c.stage.f])[..|c.outer|] == c.outer;
    }
  }

  lemma ShiftStacks(c: Config, t: Token)
    requires Sound(c) && CanTake(c.stage, t.code)
    ensures Stack(ShiftToken(c, t)) == Stack(c) + [TopState(ShiftToken(c, t).stage)]
  {
    var k := Progress(c.stage);
    var c' := ShiftToken(c, t);
    if c.stage.SIn? && t.code == LEFT_PAREN {
      assert c'.outer[..|c.outer|] == c.outer;
      assert HEADER[..8] == HEADER;
    } else {
      if k < 8 { assert HEADER[..k + 1] == HEADER[..k] + [HEADER[k]]; }
      assert StageStates(c'.stage) == StageStates(c.stage) + [TopState(c'.stage)];
    }
  }

  lemma ShiftInnerValues(c: Config, t: Token, values: seq<string>)
    requires c.stage.SIn? && t.code == LEFT_PAREN && Fits(values, c)
    ensures Fits(values + [t.text], ShiftToken(c, t))
  {
    assert (c.outer + [c.stage.f])[..|c.outer|] == c.outer;
    OuterFitsPrefix(c.outer, values, values + [t.text]);
  }

  lemma ShiftOwnValues(c: Config, t: Token, values: seq<string>)
    requires CanTake(c.stage, t.code) && !(c.stage.SIn? && t.code == LEFT_PAREN)
    requires |values| == Size(c) && StageFits(c, values)
    ensures ShiftToken(c, t).outer == c.outer && Size(ShiftToken(c, t)) == |values| + 1
    ensures StageFits(ShiftToken(c, t), values + [t.text])
  {
  }

  lemma ShiftValues(c: Config, t: Token, values: seq<string>)
    requires Sound(c) && CanTake(c.stage, t.code) && Fits(values, c)
    ensures Fits(values + [t.text], ShiftToken(c, t))
  {
    if c.stage.SIn? && t.code == LEFT_PAREN {
      ShiftInnerValues(c, t, values);
    } else {
      ShiftOwnValues(c, t, values);
      OuterFitsPrefix(c.outer, values, values + [t.text]);
    }
  }

  lemma ShiftsEnd(c: Config)
    requires Sound(c) && ActionOn(TopState(c.stage), 0).Shift?
    ensures c.stage.SWhole? && Sound(ShiftEnd(c)) && ReadingOf(ShiftEnd(c)) == ReadingOf(c)
    ensures TablesOf(ShiftEnd(c)) == TablesOf(c)
    ensures ActionOn(TopState(c.stage), 0).state == YYFINAL
    ensures Stack(ShiftEnd(c)) == Stack(c) + [YYFINAL]
  {
    TableDecides(TopState(c.stage), 0);
    hide ActionOn, Walk, OuterTables;
    assert StageStates(ShiftEnd(c).stage) == StageStates(c.stage) + [4];
  }

  lemma ErrorIsStuck(c: Config, t: Token)
    requires Sound(c) && t.code > 0 && !c.stage.SAccepted?
    requires ActionOn(TopState(c.stage), Translate(t.code)).Error?
    requires Waiting(c, t.code)
    ensures Feed(ReadingOf(c), t).Stuck?
  {
    hide ActionOn, Translate;
    Translations(t.code);
    TableDecides(TopState(c.stage), Translate(t.code));
  }

  lemma ErrorAtEnd(c: Config)
    requires Sound(c) && !c.stage.SAccepted?
    requires ActionOn(TopState(c.stage), 0).Error?
    ensures !ReadingOf(c).top.Whole?
  {
    TableDecides(TopState(c.stage), 0);
  }

  // ------------------------------------------------------------------------------------------
  // Reducing
  // ------------------------------------------------------------------------------------------

  /** The rule a configuration is ready to be reduced by. */
  ghost predicate CanReduce(s: Stage, rule: int) {
    match s
    case SOpen(_) => rule == 2
    case SCat(_, _) => rule == 3
    case SHead(_, _, _) => rule == 4
    case SIn(f) => rule == 5 && f.sub.HasSub?
    case SClosed(f, _) => rule == 6 && f.sub.HasSub?
    case SWord(f, _) => rule == if f.sub.HasSub? then 10 else 9
    case SExpr(f, _) => rule == if f.sub.HasSub? then 8 else 7
    case _ => false
  }

  ghost function ReduceConfig(c: Config): Config {
    match c.stage
    case SOpen(o) => c.(stage := SOpened(o))
    case SCat(o, n) => c.(stage := SNamed(o, n))
    case SHead(o, n, h) => c.(stage := SHeaded(o, n, h))
    case SIn(f) => if f.sub.HasSub? then c.(stage := SReported(f)) else c
    case SWord(f, w) => c.(stage := SIn(WithWord(f, w)))
    case SExpr(f, e) => c.(stage := SIn(WithExpression(f, e)))
    case SClosed(f, close) => if f.sub.HasSub? then Reduced(c.outer, Finish(f, close)) else c
    case _ => c
  }

  /** The semantic action of a rule; `top` is the value on top of the stack, `name` the one six below. */
  function RuleAction(t: Tables, rule: int, top: string, name: string): Tables {
    if rule == 2 then OpenLevel(t)
    else if rule == 3 then NameNode(t, top)
    else if rule == 4 then SetHead(t, top)
    else if rule == 5 then ReportNode(t, name)
    else if rule == 6 then CloseLevel(t)
    else if rule == 9 || rule == 10 then AddLeaf(t)
    else t
  }

  lemma TablesReduce(c: Config, token: int, rule: int)
    requires Sound(c) && !c.stage.SAccepted? && 0 <= token < 8
    requires ActionOn(TopState(c.stage), token) == Reduce(rule)
    ensures CanReduce(c.stage, rule)
    ensures c.stage.SIn? ==> token != 3 && token != 7
  {
    TableDecides(TopState(c.stage), token);
  }

  lemma ReduceReads(c: Config, rule: int)
    requires Sound(c) && CanReduce(c.stage, rule)
    ensures Sound(ReduceConfig(c))
    ensures ReadingOf(ReduceConfig(c)) == ReadingOf(c)
  {
  }

  lemma Gotos()
    ensures Goto(2, 1) == 3 && Goto(3, 5) == 6 && Goto(4, 7) == 8 && Goto(5, 13) == 16
    ensures Goto(7, 10) == Goto(8, 10) == Goto(9, 10) == Goto(10, 10) == 13
    ensures Goto(6, 0) == 2 && Goto(6, 10) == 12 && Goto(6, 13) == 15
  {
  }

  /** The stack below the right-hand side of the rule. */
  ghost function Exposed(c: Config, rule: int): seq<int>
    requires Sound(c) && CanReduce(c.stage, rule)
  {
    if rule == 6 then OuterStates(c.outer)
    else if rule < 6 then Stack(c)
    else OuterStates(c.outer) + HEADER
  }

  lemma ReducePops(c: Config, rule: int)
    requires Sound(c) && CanReduce(c.stage, rule)
    ensures |Stack(c)| > YYR2[rule] && Stack(c)[..|Stack(c)| - YYR2[rule]] == Exposed(c, rule)
  {
    OuterSize(c.outer);
    assert HEADER[..8] == HEADER;
    if rule >= 6 {
      assert StageStates(c.stage) == HEADER + Extra(c.stage);
    }
  }

  lemma {:induction false} OuterTop(fs: seq<Frame>)
    ensures OuterStates(fs) != []
    ensures var top := OuterStates(fs)[|OuterStates(fs)| - 1];
      if fs == [] then top == 0 else top == if fs[|fs| - 1].sub.HasSub? then 13 else 10
  {
  }

  lemma ReduceHeader(c: Config, rule: int)
    requires Sound(c) && CanReduce(c.stage, rule) && 2 <= rule <= 5
    ensures Stack(ReduceConfig(c)) == Stack(c) + [Goto(rule, TopState(c.stage))]
  {
    Gotos();
    var k := Progress(c.stage);
    var c' := ReduceConfig(c);
    if k < 8 { assert HEADER[..k + 1] == HEADER[..k] + [HEADER[k]]; }
    assert StageStates(c'.stage) == StageStates(c.stage) + [TopState(c'.stage)];
  }

  lemma ReduceSub(c: Config, rule: int)
    requires Sound(c) && CanReduce(c.stage, rule) && 7 <= rule <= 10
    ensures Stack(ReduceConfig(c)) == OuterStates(c.outer) + HEADER + [Goto(rule, 10)]
  {
    Gotos();
    assert HEADER[..8] == HEADER;
    assert StageStates(ReduceConfig(c).stage) == HEADER + [13];
  }

  lemma ReduceWhole(c: Config)
    requires Sound(c) && CanReduce(c.stage, 6)
    ensures OuterStates(c.outer) != []
    ensures Stack(ReduceConfig(c)) ==
            OuterStates(c.outer) + [Goto(6, OuterStates(c.outer)[|OuterStates(c.outer)| - 1])]
  {
    Gotos();
    OuterTop(c.outer);
    assert HEADER[..8] == HEADER && HEADER[..0] == [];
    var c' := ReduceConfig(c);
    if c.outer != [] {
      var f := c.outer[|c.outer| - 1];
      assert StageStates(c'.stage) == FrameStates(f) + [TopState(c'.stage)];
    }
  }

  /** The state stack after a reduction. */
  ghost function ReducedStack(rule: int, stack: seq<int>): seq<int> {
    if 2 <= rule <= 10 && |stack| > YYR2[rule] then
      var n := |stack| - YYR2[rule];
      stack[..n] + [Goto(rule, stack[n - 1])]
    else stack
  }

  /** A reduction by the tables is the reduction of the configuration. */
  lemma ReduceStacks(c: Config, rule: int)
    requires Sound(c) && CanReduce(c.stage, rule)
    ensures 2 <= rule <= 10 && YYR2[rule] < |Stack(c)| == Size(c)
    ensures Stack(ReduceConfig(c)) == ReducedStack(rule, Stack(c))
  {
    StackSize(c);
    ReducePops(c, rule);
    hide Goto, Sound, Stack, Size, TopState, ReduceConfig, OuterStates;
    if rule < 6 {
      StackTop(c);
      ReduceHeader(c, rule);
    } else if rule == 6 {
      ReduceWhole(c);
    } else {
      ReduceSub(c, rule);
    }
  }

  lemma ReduceTablesHeader(c: Config, rule: int, top: string, name: string)
    requires Sound(c) && CanReduce(c.stage, rule) && rule <= 4
    requires rule == 3 ==> top == c.stage.cat.text
    requires rule == 4 ==> top == c.stage.head.text
    ensures TablesOf(ReduceConfig(c)) == RuleAction(TablesOf(c), rule, top, name)
  {
    hide OpenLevel, NameNode, SetHead, OuterTables;
  }

  lemma ReduceTablesReport(c: Config, top: string)
    requires Sound(c) && CanReduce(c.stage, 5)
    ensures TablesOf(ReduceConfig(c)) == RuleAction(TablesOf(c), 5, top, NameAfter(c.outer, c.stage.f.cat))
  {
    hide Walk, WalkSub, FrameTables, OuterTables, NodesOuter, ReportNode, Decimal;
    OuterCounts(c.outer);
  }

  ghost function PartialTables(t: Tables, p: Partial): Tables {
    if p.HasSub? then WalkSub(t, p.s) else t
  }

  lemma WordTables(t: Tables, f: Frame, w: Token)
    ensures FrameTables(t, WithWord(f, w)) == AddLeaf(FrameTables(t, f))
  {
    hide Enter, WalkSub, AddLeaf;
    var inside := Enter(t, f.cat.text, f.head.text);
    AddWordTables(inside, f.sub, w);
  }

  lemma AddWordTables(t: Tables, p: Partial, w: Token)
    ensures WalkSub(t, AddWord(p, w)) == AddLeaf(PartialTables(t, p))
  {
  }

  lemma ExpressionTables(t: Tables, f: Frame, e: Expression)
    ensures FrameTables(t, WithExpression(f, e)) == Walk(FrameTables(t, f), e)
  {
    hide Enter, WalkSub, Walk;
    var inside := Enter(t, f.cat.text, f.head.text);
    AddExpressionTables(inside, f.sub, e);
  }

  lemma AddExpressionTables(t: Tables, p: Partial, e: Expression)
    ensures WalkSub(t, AddExpression(p, e)) == Walk(PartialTables(t, p), e)
  {
  }

  lemma ReduceTablesWord(c: Config)
    requires c.stage.SWord?
    ensures TablesOf(c.(stage := SIn(WithWord(c.stage.f, c.stage.w)))) == AddLeaf(TablesOf(c))
  {
    hide OuterTables, FrameTables, AddLeaf, WithWord;
    WordTables(OuterTables(c.outer), c.stage.f, c.stage.w);
  }

  lemma ReduceTablesExpression(c: Config)
    requires c.stage.SExpr?
    ensures TablesOf(c.(stage := SIn(WithExpression(c.stage.f, c.stage.e)))) == TablesOf(c)
  {
    hide OuterTables, FrameTables, Walk, WithExpression;
    ExpressionTables(OuterTables(c.outer), c.stage.f, c.stage.e);
  }

  lemma ReduceTablesSub(c: Config, rule: int, top: string, name: string)
    requires Sound(c) && CanReduce(c.stage, rule) && rule >= 7
    ensures TablesOf(ReduceConfig(c)) == RuleAction(TablesOf(c), rule, top, name)
  {
    if c.stage.SWord? {
      ReduceTablesWord(c);
    } else {
      ReduceTablesExpression(c);
    }
  }

  lemma WholeTables(t: Tables, f: Frame, close: Token)
    requires f.sub.HasSub?
    ensures CloseLevel(ReportNode(FrameTables(t, f), f.cat.text + Decimal(t.tokens + 1)))
         == Walk(t, Finish(f, close))
  {
    hide Enter, WalkSub, CloseLevel, ReportNode, Decimal;
  }

  /** Where the reduced expression `e` goes. */
  ghost function Reduced(outer: seq<Frame>, e: Expression): Config {
    if outer == [] then Config([], SWhole(e))
    else Config(outer[..|outer| - 1], SExpr(outer[|outer| - 1], e))
  }

  lemma ReducedTables(outer: seq<Frame>, e: Expression)
    ensures TablesOf(Reduced(outer, e)) == Walk(OuterTables(outer), e)
  {
    hide Walk, FrameTables;
  }

  lemma ReduceTablesWhole(c: Config, top: string, name: string)
    requires c.stage.SClosed? && c.stage.f.sub.HasSub?
    ensures TablesOf(Reduced(c.outer, Finish(c.stage.f, c.stage.close))) == CloseLevel(TablesOf(c))
  {
    hide Walk, FrameTables, OuterTables, ReportNode, CloseLevel, Decimal;
    var t := OuterTables(c.outer);
    WholeTables(t, c.stage.f, c.stage.close);
    ReducedTables(c.outer, Finish(c.stage.f, c.stage.close));
  }

  /** The action of a reduction turns the tables of one configuration into those of the next. */
  lemma ReduceTables(c: Config, rule: int, top: string, name: string)
    requires Sound(c) && CanReduce(c.stage, rule)
    requires rule == 3 ==> top == c.stage.cat.text
    requires rule == 4 ==> top == c.stage.head.text
    requires rule == 5 ==> name == NameAfter(c.outer, c.stage.f.cat)
    ensures TablesOf(ReduceConfig(c)) == RuleAction(TablesOf(c), rule, top, name)
  {
    if rule <= 4 {
      ReduceTablesHeader(c, rule, top, name);
    } else if rule == 5 {
      ReduceTablesReport(c, top);
    } else if rule == 6 {
      ReduceTablesWhole(c, top, name);
    } else {
      ReduceTablesSub(c, rule, top, name);
    }
  }

  /** The values after a reduction: rule 3 extends the category in place, then the right-hand side
      is popped and the rule's own value pushed. */
  ghost function ReducedValues(c: Config, rule: int, values: seq<string>, value: string): seq<string> {
    if 2 <= rule <= 10 && |values| > YYR2[rule] then
      var vs := if rule == 3 && c.stage.SCat? then values[|values| - 1 := NameAfter(c.outer, c.stage.cat)]
                else values;
      vs[..|vs| - YYR2[rule]] + [value]
    else values
  }

  lemma ReducedSize(c: Config, rule: int)
    requires Sound(c) && CanReduce(c.stage, rule) && rule != 6
    ensures ReduceConfig(c).outer == c.outer
    ensures Size(ReduceConfig(c)) == Size(c) - YYR2[rule] + 1
    ensures Size(c) - YYR2[rule] >= Base(c.outer)
    ensures rule >= 5 ==> Size(c) - YYR2[rule] >= Base(c.outer) + 8
  {
  }

  lemma ReduceOwnValues(c: Config, rule: int, values: seq<string>, value: string)
    requires Sound(c) && CanReduce(c.stage, rule) && rule != 6
    requires |values| == Size(c) && |values| > YYR2[rule] && StageFits(c, values)
    requires Size(ReduceConfig(c)) == Size(c) - YYR2[rule] + 1 && ReduceConfig(c).outer == c.outer
    requires rule >= 5 ==> Size(c) - YYR2[rule] >= Base(c.outer) + 8
    ensures StageFits(ReduceConfig(c), ReducedValues(c, rule, values, value))
  {
  }

  lemma ReduceValuesHere(c: Config, rule: int, values: seq<string>, value: string)
    requires Sound(c) && CanReduce(c.stage, rule) && rule != 6
    requires |values| == Size(c) && |values| > YYR2[rule] && Fits(values, c)
    ensures Fits(ReducedValues(c, rule, values, value), ReduceConfig(c))
  {
    ReducedSize(c, rule);
    ReduceOwnValues(c, rule, values, value);
    OuterFitsPrefix(c.outer, values, ReducedValues(c, rule, values, value));
  }

  lemma InnerNameKept(fs: seq<Frame>, values: seq<string>, vs: seq<string>)
    requires fs != [] && OuterFits(fs, values) && |vs| == Base(fs) + 1 <= |values|
    requires forall i :: 0 <= i < Base(fs) ==> vs[i] == values[i]
    ensures var rest := fs[..|fs| - 1];
      && OuterFits(rest, vs) && Base(rest) + 2 < Base(fs)
      && vs[Base(rest) + 2] == NameAfter(rest, fs[|fs| - 1].cat)
  {
    var rest := fs[..|fs| - 1];
    OuterFitsPrefix(rest, values, vs);
  }

  lemma ReducedFits(outer: seq<Frame>, e: Expression, values: seq<string>, vs: seq<string>)
    requires OuterFits(outer, values) && |vs| == Base(outer) + 1 <= |values|
    requires forall i :: 0 <= i < Base(outer) ==> vs[i] == values[i]
    ensures Fits(vs, Reduced(outer, e))
  {
    if outer != [] {
      InnerNameKept(outer, values, vs);
    }
  }

  lemma ReduceValuesWhole(c: Config, values: seq<string>, value: string)
    requires c.stage.SClosed? && c.stage.f.sub.HasSub?
    requires |values| == Size(c) && |values| > YYR2[6] && Fits(values, c)
    ensures Fits(values[..|values| - YYR2[6]] + [value], Reduced(c.outer, Finish(c.stage.f, c.stage.close)))
  {
    ReducedFits(c.outer, Finish(c.stage.f, c.stage.close), values, values[..|values| - YYR2[6]] + [value]);
  }

  lemma ReduceValues(c: Config, rule: int, values: seq<string>, value: string)
    requires Sound(c) && CanReduce(c.stage, rule)
    requires |values| == Size(c) && |values| > YYR2[rule] && Fits(values, c)
    ensures Fits(ReducedValues(c, rule, values, value), ReduceConfig(c))
  {
    if rule == 6 {
      ReduceValuesWhole(c, values, value);
    } else {
      ReduceValuesHere(c, rule, values, value);
    }
  }

  /** Reductions that can follow one another before the next token is shifted. */
  ghost function Rank(s: Stage): nat {
    match s
    case SClosed(_, _) => 4
    case SExpr(_, _) => 3
    case SWord(_, _) => 3
    case SIn(_) => 2
    case SReported(_) => 1
    case SOpen(_) => 1
    case SCat(_, _) => 1
    case SHead(_, _, _) => 1
    case SWhole(_) => 1
    case _ => 0
  }

  /** Left parentheses on the stack that are still open. */
  ghost function OpenCount(c: Config): int { Depth(c) - (if c.stage.SClosed? then 1 else 0) }

  lemma ShiftDepth(c: Config, t: Token)
    requires CanTake(c.stage, t.code)
    ensures OpenCount(ShiftToken(c, t)) ==
      OpenCount(c) + (if t.code == LEFT_PAREN then 1 else if t.code == RIGHT_PAREN then -1 else 0)
    ensures Depth(ShiftToken(c, t)) <= Max(Depth(c), OpenCount(ShiftToken(c, t)))
  {
  }

  lemma ReduceDepth(c: Config, rule: int)
    requires Sound(c) && CanReduce(c.stage, rule)
    ensures OpenCount(ReduceConfig(c)) == OpenCount(c) && Depth(ReduceConfig(c)) <= Depth(c)
    ensures Rank(ReduceConfig(c).stage) < Rank(c.stage)
  {
  }

  /** The depth of the unfinished expressions against the parentheses read so far. */
  ghost predicate Nested(c: Config, ts: seq<Token>) {
    Depth(c) <= MaxNesting(ts) && Balance(ts) == OpenCount(c)
  }

  lemma ShiftNested(c: Config, t: Token, ts: seq<Token>)
    requires CanTake(c.stage, t.code) && Nested(c, ts)
    ensures Nested(ShiftToken(c, t), ts + [t])
  {
    assert (ts + [t])[..|ts|] == ts;
    ShiftDepth(c, t);
  }

  lemma {:induction false} OuterInRange(fs: seq<Frame>)
    ensures forall i :: 0 <= i < |OuterStates(fs)| ==> 0 <= OuterStates(fs)[i] < 18
  {
    if fs != [] { OuterInRange(fs[..|fs| - 1]); }
  }

  lemma StackInRange(c: Config)
    ensures forall i :: 0 <= i < |Stack(c)| ==> 0 <= Stack(c)[i] < 18
  {
    OuterInRange(c.outer);
  }
}
