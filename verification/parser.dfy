/** The generated parser: a loop over a state stack and a value stack that grow on demand, running
    the semantic actions on the program's tables, and the loops that print those tables. */
module ConstituencyParser {
  import opened Grammar
  import opened LalrTables
  import opened LalrConfig
  import opened TreeTables

  const YYINITDEPTH := 200
  const YYMAXDEPTH := 10000
  const YYEMPTY := -2
  const YYEOF := 0

  class Parser {
    // What the lexer will answer, and how much of it has been asked for.
    const input: seq<Token>
    var position: nat

    // The lookahead token and its semantic value.
    var yychar: int
    var yylval: string

    // The stacks; yyssp is the index of the top of both.
    var yyss: array<int>
    var yyvs: array<string>
    var yyssp: int
    var yystacksize: int

    // The program's globals.
    var myLevel: int
    var myIndex: seq<int>
    var currentSubLevel: map<int, int>
    var myTokenCount: nat
    var count: nat
    var count1: nat
    var myMother: map<(int, int), string>
    var myHead: map<(int, int), string>
    var myDaughters: map<(int, int), string>
    var nodeCat: map<int, string>

    constructor (tokens: seq<Token>)
      ensures input == tokens && Fresh()
      ensures fresh(yyss) && fresh(yyvs)
    {
      input := tokens;
      position := 0;
      yychar, yylval := YYEMPTY, "";
      yyss := new int[YYINITDEPTH](_ => 0);
      yyvs := new string[YYINITDEPTH](_ => "");
      yyssp, yystacksize := 0, YYINITDEPTH;
      myLevel, myIndex, currentSubLevel, myTokenCount, count, count1 := 0, [0], map[], 0, 0, 0;
      myMother, myHead, myDaughters, nodeCat := map[], map[], map[], map[];
    }

    /** Nothing has been read, pushed or recorded. */
    ghost predicate Fresh()
      reads this
    {
      && position == 0 && yychar == YYEMPTY && yyssp == 0 && Roomy()
      && yystacksize == YYINITDEPTH && Globals() == NO_TABLES
    }

    ghost predicate Roomy()
      reads this
    {
      && 0 <= yyssp < yystacksize == yyss.Length == yyvs.Length
      && YYINITDEPTH <= yystacksize <= YYMAXDEPTH
    }

    function Globals(): Tables
      reads this
    {
      Tables(myLevel, myIndex, currentSubLevel, myTokenCount, count, count1,
             myMother, myHead, myDaughters, nodeCat)
    }

    ghost function States(): seq<int>
      reads this, yyss
      requires Roomy()
    {
      yyss[..yyssp + 1]
    }

    ghost function SemanticValues(): seq<string>
      reads this, yyvs
      requires Roomy()
    {
      yyvs[..yyssp + 1]
    }

    // ----------------------------------------------------------------------------------------
    // The stacks
    // ----------------------------------------------------------------------------------------

    /** Both stacks get new, larger storage with the same contents. */
    method Relocate(size: int)
      requires Roomy() && yystacksize <= size <= YYMAXDEPTH
      modifies this`yyss, this`yyvs, this`yystacksize
      ensures Roomy() && yystacksize == size
      ensures fresh(yyss) && fresh(yyvs)
      ensures States() == old(States()) && SemanticValues() == old(SemanticValues())
    {
      var ss := new int[size](_ => 0);
      var vs := new string[size](_ => "");
      var i := 0;
      while i <= yyssp
        invariant Roomy() && 0 <= i <= yyssp + 1
        invariant ss[..i] == yyss[..i] && vs[..i] == yyvs[..i]
        invariant yyss == old(yyss) && yyvs == old(yyvs)
        invariant States() == old(States()) && SemanticValues() == old(SemanticValues())
      {
        ss[i] := yyss[i];
        vs[i] := yyvs[i];
        i := i + 1;
      }
      yyss, yyvs, yystacksize := ss, vs, size;
    }

    /** Makes sure one more entry fits. The stacks refuse to grow only at YYMAXDEPTH entries. */
    method MakeRoom() returns (ok: bool)
      requires Roomy()
      modifies this`yyss, this`yyvs, this`yystacksize
      ensures Roomy()
      ensures States() == old(States()) && SemanticValues() == old(SemanticValues())
      ensures yyss == old(yyss) || fresh(yyss)
      ensures yyvs == old(yyvs) || fresh(yyvs)
      ensures Globals() == old(Globals())
      ensures ok ==> yyssp + 1 < yystacksize
      ensures !ok ==> |States()| >= YYMAXDEPTH
    {
      if yystacksize - 1 <= yyssp {
        if YYMAXDEPTH <= yystacksize {
          return false;
        }
        var size := yystacksize * 2;
        if YYMAXDEPTH < size {
          size := YYMAXDEPTH;
        }
        Relocate(size);
      }
      return true;
    }

    method Push(state: int, value: string)
      requires Roomy() && yyssp + 1 < yystacksize
      modifies this`yyssp, yyss, yyvs
      ensures Roomy()
      ensures States() == old(States()) + [state]
      ensures SemanticValues() == old(SemanticValues()) + [value]
    {
      yyvs[yyssp + 1] := value;
      yyssp := yyssp + 1;
      yyss[yyssp] := state;
    }

    // ----------------------------------------------------------------------------------------
    // The lookahead
    // ----------------------------------------------------------------------------------------

    /** `shifted` tokens have been consumed; the lookahead, if any, is the next one. */
    ghost predicate Looking(shifted: nat)
      reads this
    {
      && shifted <= |input|
      && (yychar == YYEMPTY ==> position == shifted)
      && (yychar != YYEMPTY && shifted < |input| ==>
            position == shifted + 1 && yychar == input[shifted].code && yylval == input[shifted].text)
      && (yychar != YYEMPTY && shifted == |input| ==> position == shifted && yychar == YYEOF)
    }

    ghost predicate Positive() {
      forall i :: 0 <= i < |input| ==> input[i].code > 0
    }

    ghost function NextCode(shifted: nat): int {
      if shifted < |input| then input[shifted].code else YYEOF
    }

    /** The lexer: the next token, or zero at the end of the input. */
    method Yylex() returns (code: int)
      requires position <= |input|
      modifies this`position, this`yylval
      ensures old(position) < |input| ==>
        position == old(position) + 1 && code == input[old(position)].code && yylval == input[old(position)].text
      ensures old(position) == |input| ==> position == old(position) && code == YYEOF && yylval == old(yylval)
    {
      if position < |input| {
        code, yylval := input[position].code, input[position].text;
        position := position + 1;
      } else {
        code := YYEOF;
      }
    }

    /** The internal number of the lookahead token, which is read if there is none yet. */
    method Lookahead(ghost shifted: nat) returns (yytoken: int)
      requires Positive() && Looking(shifted)
      modifies this`position, this`yylval, this`yychar
      ensures Looking(shifted) && yychar != YYEMPTY && Globals() == old(Globals())
      ensures yytoken == Translate(NextCode(shifted))
    {
      if yychar == YYEMPTY {
        yychar := Yylex();
      }
      if yychar <= YYEOF {
        yychar := YYEOF;
        yytoken := YYEOF;
      } else {
        yytoken := Translate(yychar);
      }
    }

    /** What to do in `state`, reading a token if the state needs one. */
    method Backup(state: int, ghost shifted: nat) returns (action: Action)
      requires 0 <= state < 18 && Positive() && Looking(shifted)
      modifies this`position, this`yylval, this`yychar
      ensures Looking(shifted)
      ensures Globals() == old(Globals())
      ensures action == ActionOn(state, Translate(NextCode(shifted)))
      ensures YYPACT[state] != YYPACT_NINF || action.Shift? || old(yychar) != YYEMPTY ==> yychar != YYEMPTY
    {
      var yyn := YYPACT[state];
      if yyn == YYPACT_NINF {
        return DefaultAction(state);
      }
      var yytoken := Lookahead(shifted);
      yyn := yyn + yytoken;
      if yyn < 0 || YYLAST < yyn || YYCHECK[yyn] != yytoken {
        return DefaultAction(state);
      }
      yyn := YYTABLE[yyn];
      if yyn <= 0 {
        return Reduce(-yyn);
      }
      return Shift(yyn);
    }

    // ----------------------------------------------------------------------------------------
    // The semantic actions
    // ----------------------------------------------------------------------------------------

    method OpenAction()
      modifies this`myLevel, this`myIndex, this`currentSubLevel
      ensures Globals() == OpenLevel(old(Globals()))
    {
      var found := false;
      myLevel := myLevel + 1;
      currentSubLevel := currentSubLevel[myLevel := Sub(currentSubLevel, myLevel) + 1];
      var j := 0;
      while j < |myIndex|
        invariant 0 <= j <= |myIndex|
        invariant found <==> myLevel in myIndex[..j]
      {
        if myIndex[j] == myLevel {
          found := true;
        }
        j := j + 1;
      }
      assert myIndex[..j] == myIndex;
      if !found {
        myIndex := myIndex + [myLevel];
      }
    }

    /** Rule 3 appends the node number to the category where it lies on the value stack. */
    method NameAction()
      requires Roomy()
      modifies this`count, this`myTokenCount, this`myMother, this`nodeCat, yyvs
      ensures Globals() == NameNode(old(Globals()), old(yyvs[yyssp]))
      ensures SemanticValues() ==
        old(SemanticValues())[yyssp := old(yyvs[yyssp]) + Decimal(old(myTokenCount) + 1)]
    {
      count := count + 1;
      var token := yyvs[yyssp];
      myTokenCount := myTokenCount + 1;
      yyvs[yyssp] := yyvs[yyssp] + Decimal(myTokenCount);
      myMother := myMother[(myLevel, Sub(currentSubLevel, myLevel)) := yyvs[yyssp]];
      nodeCat := nodeCat[count := CategoryLine(yyvs[yyssp], token)];
    }

    method HeadAction()
      requires Roomy()
      modifies this`myHead
      ensures Globals() == SetHead(old(Globals()), yyvs[yyssp])
    {
      myHead := myHead[(myLevel, Sub(currentSubLevel, myLevel)) := yyvs[yyssp]];
    }

    method ReportAction()
      requires Roomy() && yyssp >= 6
      modifies this`myDaughters
      ensures Globals() == ReportNode(old(Globals()), yyvs[yyssp - 6])
    {
      var l := myLevel - 1;
      var k := Sub(currentSubLevel, l);
      myDaughters := myDaughters[(l, k) := Cell(myDaughters, l, k) + yyvs[yyssp - 6]];
      myDaughters := myDaughters[(l, k) := Cell(myDaughters, l, k) + " "];
    }

    method LeafAction()
      modifies this`count1, this`myDaughters
      ensures Globals() == AddLeaf(old(Globals()))
    {
      count1 := count1 + 1;
      var l, k := myLevel, Sub(currentSubLevel, myLevel);
      var buffer := "P" + Decimal(count1);
      myDaughters := myDaughters[(l, k) := Cell(myDaughters, l, k) + buffer];
      assert Cell(old(myDaughters), l, k) + buffer == Cell(old(myDaughters), l, k) + "P" + Decimal(count1);
    }

    /** The action of a rule, run before its right-hand side is popped. */
    method RunAction(rule: int)
      requires Roomy() && (rule == 5 ==> yyssp >= 6)
      modifies this`myLevel, this`myIndex, this`currentSubLevel, this`myTokenCount, this`count,
        this`count1, this`myMother, this`myHead, this`myDaughters, this`nodeCat, yyvs
      ensures Globals() == RuleAction(old(Globals()), rule, old(yyvs[yyssp]),
                                      if rule == 5 then old(yyvs[yyssp - 6]) else "")
      ensures SemanticValues() ==
        if rule == 3 then old(SemanticValues())[yyssp := old(yyvs[yyssp]) + Decimal(old(myTokenCount) + 1)]
        else old(SemanticValues())
    {
      match rule
      case 2 => OpenAction();
      case 3 => NameAction();
      case 4 => HeadAction();
      case 5 => ReportAction();
      case 6 => myLevel := myLevel - 1;
      case 9 => LeafAction();
      case 10 => LeafAction();
      case _ =>
    }

    // ----------------------------------------------------------------------------------------
    // The parser loop
    // ----------------------------------------------------------------------------------------

    /** The stacks and the tables are those of configuration `c`. */
    ghost predicate Holds(c: Config)
      reads this, yyss, yyvs
    {
      && Roomy() && Sound(c)
      && States() == Stack(c)
      && Fits(SemanticValues(), c)
      && Globals() == TablesOf(c)
    }

    /** Pops the right-hand side of `rule` and pushes its value and the state it leads to. */
    method PopAndPush(rule: int, yyval: string) returns (state: int)
      requires Roomy() && 2 <= rule <= 10 && YYR2[rule] <= yyssp && yyssp + 1 < yystacksize
      modifies this`yyssp, yyss, yyvs
      ensures Roomy()
      ensures States() == ReducedStack(rule, old(States())) && state == TopOf(States())
      ensures SemanticValues() == old(SemanticValues())[..|old(SemanticValues())| - YYR2[rule]] + [yyval]
    {
      hide Goto;
      ghost var n := yyssp + 1 - YYR2[rule];
      assert yyss[..n] == States()[..n] && yyvs[..n] == SemanticValues()[..n];
      yyssp := yyssp - YYR2[rule];
      state := Goto(rule, yyss[yyssp]);
      Push(state, yyval);
    }

    /** The whole of a reduction: action, pop, push; the answer is the state to enter. */
    method ReduceRule(rule: int) returns (state: int)
      requires Roomy() && 2 <= rule <= 10 && YYR2[rule] <= yyssp && yyssp + 1 < yystacksize
      requires rule == 5 ==> yyssp >= 6
      modifies this`yyssp, this`myLevel, this`myIndex, this`currentSubLevel, this`myTokenCount, this`count,
        this`count1, this`myMother, this`myHead, this`myDaughters, this`nodeCat, yyss, yyvs
      ensures Roomy()
      ensures Globals() == RuleAction(old(Globals()), rule, old(yyvs[yyssp]),
                                      if rule == 5 then old(yyvs[yyssp - 6]) else "")
      ensures States() == ReducedStack(rule, old(States())) && state == TopOf(States())
      ensures var n := |old(SemanticValues())| - YYR2[rule]; var top := |old(SemanticValues())| - 1;
        && n >= 1
        && SemanticValues() ==
             (if rule == 3
              then old(SemanticValues())[top := old(SemanticValues())[top] + Decimal(old(myTokenCount) + 1)]
              else old(SemanticValues()))[..n] + [old(yyvs[yyssp + 1 - YYR2[rule]])]
    {
      hide RuleAction, ReducedStack, Decimal, TopOf;
      ghost var states := States();
      var yyval := yyvs[yyssp + 1 - YYR2[rule]];
      RunAction(rule);
      assert States() == states;
      state := PopAndPush(rule, yyval);
    }

    /** A reduction takes the parser from one configuration to the next. */
    method ReduceBy(rule: int, ghost c: Config) returns (state: int)
      requires Holds(c) && CanReduce(c.stage, rule) && yyssp + 1 < yystacksize
      modifies this`yyssp, this`myLevel, this`myIndex, this`currentSubLevel, this`myTokenCount, this`count,
        this`count1, this`myMother, this`myHead, this`myDaughters, this`nodeCat, yyss, yyvs
      ensures Holds(ReduceConfig(c))
      ensures state == TopState(ReduceConfig(c).stage)
    {
      hide Sound, CanReduce, ReduceConfig, Fits, TablesOf, TopState, Goto, Stack, Size, RuleAction, ReducedStack;
      ghost var values := SemanticValues();
      ghost var yyval;
      ReducesByRule(c, rule);
      ReadsBelow(c, rule, values);
      yyval := yyvs[yyssp + 1 - YYR2[rule]];
      state := ReduceRule(rule);
      Reduction(c, rule, values, yyval, values[|values| - 1], if rule == 5 then values[|values| - 7] else "");
    }

    /** Pushes the lookahead token. */
    method ShiftRule(state: int)
      requires Roomy() && yyssp + 1 < yystacksize
      modifies this`yyssp, this`yychar, yyss, yyvs
      ensures Roomy() && yychar == YYEMPTY
      ensures States() == old(States()) + [state]
      ensures SemanticValues() == old(SemanticValues()) + [yylval]
    {
      yychar := YYEMPTY;
      Push(state, yylval);
    }

    /** Everything the loop keeps true: the parser stands at `c`, and `c` is where the grammar is after
        the `shifted` tokens consumed so far. */
    ghost predicate Stands(c: Config, shifted: nat)
      reads this, yyss, yyvs
    {
      && Holds(c) && Looking(shifted)
      && FeedAll(START, input[..shifted]) == At(ReadingOf(c))
      && Nested(c, input[..shifted])
      && (c.stage.SReported? ==> yychar != YYEMPTY && Waiting(c, NextCode(shifted)))
      && (c.stage.SAccepted? ==> shifted == |input|)
    }

    /** Shifting the lookahead takes the parser from one configuration to the next. */
    method ShiftNext(state: int, ghost c: Config, ghost shifted: nat)
      requires Stands(c, shifted) && Positive()
      requires ActionOn(TopState(c.stage), Translate(NextCode(shifted))) == Shift(state)
      requires yychar != YYEMPTY && yyssp + 1 < yystacksize
      modifies this`yyssp, this`yychar, yyss, yyvs
      ensures Stands(ShiftOn(c, input, shifted), After(input, shifted))
      ensures state == TopState(ShiftOn(c, input, shifted).stage)
    {
      hide ReadingOf, Sound, Fits, TablesOf, TopState, ShiftOn, Stack, Nested, Feed, ActionOn, Translate, FeedAll;
      Shifts(c, input, shifted, state, SemanticValues(), yylval);
      ShiftRule(state);
    }

    method ReduceNext(rule: int, ghost c: Config, ghost shifted: nat) returns (state: int)
      requires Stands(c, shifted) && CanReduce(c.stage, rule) && yyssp + 1 < yystacksize
      requires c.stage.SIn? ==> yychar != YYEMPTY && NextCode(shifted) != LEFT_PAREN && NextCode(shifted) != STRING
      modifies this`yyssp, this`myLevel, this`myIndex, this`currentSubLevel, this`myTokenCount, this`count,
        this`count1, this`myMother, this`myHead, this`myDaughters, this`nodeCat, yyss, yyvs
      ensures Stands(ReduceConfig(c), shifted) && state == TopState(ReduceConfig(c).stage)
    {
      hide CanReduce, ReduceConfig, ReadingOf, TopState, FeedAll, Nested, Sound, Fits, TablesOf, Stack, Size, Globals;
      assert Sound(c);
      hide Holds;
      OnReducing(c, rule, input[..shifted]);
      state := ReduceBy(rule, c);
    }

    /** Error recovery: no state takes the error token, so everything above the bottom is popped. */
    method PopAll()
      requires Roomy() && forall i :: 0 <= i <= yyssp ==> 0 <= yyss[i] < 18
      modifies this`yyssp
      ensures yyssp == 0
    {
      var state := yyss[yyssp];
      while true
        invariant 0 <= yyssp < yyss.Length && state == yyss[yyssp] && yyss == old(yyss)
        invariant forall i :: 0 <= i <= yyssp ==> 0 <= yyss[i] < 18
        decreases yyssp
      {
        var yyn := YYPACT[state];
        if yyn != YYPACT_NINF {
          yyn := yyn + YYTERROR;
          NoErrorShift(state);
          if 0 <= yyn <= YYLAST && YYCHECK[yyn] == YYTERROR {
            break;
          }
        }
        if yyssp == 0 {
          break;
        }
        yyssp := yyssp - 1;
        state := yyss[yyssp];
      }
    }

    method Begin() returns (state: int)
      requires Fresh()
      modifies yyss
      ensures Stands(BOTTOM, 0) && state == TopState(BOTTOM.stage)
    {
      state := 0;
      yyss[0] := state;
      Begins(yyvs[0]);
    }

    /** `Backup` in a configuration: it changes only the lookahead. */
    method Decide(state: int, ghost c: Config, ghost shifted: nat) returns (action: Action)
      requires 0 <= state < 18 && Positive() && Stands(c, shifted) && state == TopState(c.stage)
      modifies this`position, this`yylval, this`yychar
      ensures Stands(c, shifted)
      ensures action == ActionOn(TopState(c.stage), Translate(NextCode(shifted)))
      ensures YYPACT[state] != YYPACT_NINF || action.Shift? ==> yychar != YYEMPTY
    {
      hide ReadingOf, TopState, FeedAll, Nested, Sound, Fits, TablesOf, Stack, ActionOn, Translate, Globals;
      ghost var states, values := States(), SemanticValues();
      action := Backup(state, shifted);
      assert States() == states && SemanticValues() == values;
    }

    /** `MakeRoom` in a configuration: it fails only on deeply nested input. */
    method GrowAt(ghost c: Config, ghost shifted: nat) returns (ok: bool)
      requires Stands(c, shifted)
      modifies this`yyss, this`yyvs, this`yystacksize
      ensures Stands(c, shifted)
      ensures yyss == old(yyss) || fresh(yyss)
      ensures yyvs == old(yyvs) || fresh(yyvs)
      ensures ok ==> yyssp + 1 < yystacksize
      ensures !ok ==> MaxNesting(input) > 1110
    {
      hide ReadingOf, FeedAll, Nested, Sound, Fits, TablesOf, Stack, Globals;
      ok := MakeRoom();
      if !ok { Exhausted(c, input, shifted); }
    }

    /** Error recovery in a configuration. */
    method Recover(ghost c: Config, ghost shifted: nat)
      requires Stands(c, shifted)
      modifies this`yyssp
      ensures yyssp == 0
    {
      hide ReadingOf, FeedAll, Nested, Sound, Fits, TablesOf, Stack, Globals;
      StackInRange(c);
      assert forall i :: 0 <= i <= yyssp ==> yyss[i] == States()[i];
      PopAll();
    }

    /** Carries out a shift or a reduction and answers the state to enter. */
    method Act(action: Action, ghost c: Config, ghost shifted: nat) returns (state: int)
      requires Stands(c, shifted) && Positive() && !c.stage.SAccepted?
      requires action == ActionOn(TopState(c.stage), Translate(NextCode(shifted))) && !action.Error?
      requires YYPACT[TopState(c.stage)] != YYPACT_NINF || action.Shift? ==> yychar != YYEMPTY
      requires yyssp + 1 < yystacksize
      modifies this`yyssp, this`yychar, this`myLevel, this`myIndex, this`currentSubLevel, this`myTokenCount,
        this`count, this`count1, this`myMother, this`myHead, this`myDaughters, this`nodeCat, yyss, yyvs
      ensures Stands(ConfigAfter(c, input, shifted, action), CountAfter(input, shifted, action))
      ensures state == TopState(ConfigAfter(c, input, shifted, action).stage)
    {
      hide CanReduce, ReduceConfig, ReadingOf, TopState, FeedAll, Nested, Sound, Fits, TablesOf, Stack, Size,
        ActionOn, Translate, ShiftOn, After;
      match action
      case Shift(next) =>
        ShiftNext(next, c, shifted);
        state := next;
      case Reduce(rule) =>
        ReducesOn(c, NextCode(shifted), rule);
        state := ReduceNext(rule, c, shifted);
    }

    /** Parses the input: 0 accepts, 1 rejects, 2 gives up because the stacks may not grow further. */
    method Parse() returns (result: int)
      requires Fresh() && Positive()
      modifies this, yyss, yyvs
      ensures result in {0, 1, 2}
      ensures result == 0 ==> Derives(input)
      ensures result == 0 ==> forall e :: ParsesAs(input, e) ==> Globals() == Walk(NO_TABLES, e)
      ensures result == 1 ==> !Derives(input)
      ensures result == 2 ==> MaxNesting(input) > 1110
    {
      hide ReadingOf, TopState, FeedAll, Nested, Sound, Fits, TablesOf, Stack, Walk, ActionOn, Translate, Rank,
        ParsesAs, MaxNesting, Waiting, ConfigAfter, CountAfter, Derives, Globals;
      ghost var c, shifted: nat := BOTTOM, 0;
      var yystate := Begin();
      while true
        invariant Stands(c, shifted) && Positive() && yystate == TopState(c.stage)
        invariant yyss == old(yyss) || fresh(yyss)
        invariant yyvs == old(yyvs) || fresh(yyvs)
        decreases |input| - shifted, Rank(c.stage)
      {
        var ok := GrowAt(c, shifted);
        if !ok {
          return 2;
        }
        StateInRange(c.stage);
        if yystate == YYFINAL {
          Accepts(c, input, shifted);
          return 0;
        }
        var action := Decide(yystate, c, shifted);
        if action.Error? {
          Rejects(c, input, shifted);
          Recover(c, shifted);
          return 1;
        }
        Progresses(c, input, shifted, action);
        yystate := Act(action, c, shifted);
        c, shifted := ConfigAfter(c, input, shifted, action), CountAfter(input, shifted, action);
      }
    }

    // ----------------------------------------------------------------------------------------
    // Printing
    // ----------------------------------------------------------------------------------------

    /** The print loops of the program: one fact a cell, row by row, then the node categories. */
    method PrintTables() returns (facts: seq<Fact>, lines: seq<string>)
      requires |myIndex| >= 1
      ensures facts == RowsOf(Globals(), |myIndex| - 1)
      ensures lines == LinesOf(Globals(), count)
    {
      facts, lines := [], [];
      ghost var t := Globals();
      var i := 1;
      while i < |myIndex|
        invariant 1 <= i <= |myIndex|
        invariant facts == RowsOf(t, i - 1)
      {
        var j := 1;
        while j < Sub(currentSubLevel, i) + 1
          invariant 1 <= j <= Width(t, i) + 1
          invariant facts == RowsOf(t, i - 1) + RowOf(t, i, j - 1)
        {
          facts := facts + [Fact(Cell(myHead, i, j), i, Cell(myMother, i, j), Cell(myDaughters, i, j))];
          j := j + 1;
        }
        i := i + 1;
      }
      i := 1;
      while i <= count
        invariant 1 <= i <= count + 1
        invariant lines == LinesOf(t, i - 1)
      {
        lines := lines + [if i in nodeCat then nodeCat[i] else ""];
        i := i + 1;
      }
    }
  }

  ghost function ConfigAfter(c: Config, input: seq<Token>, shifted: nat, action: Action): Config {
    if action.Shift? then ShiftOn(c, input, shifted) else ReduceConfig(c)
  }

  ghost function CountAfter(input: seq<Token>, shifted: nat, action: Action): nat {
    if action.Shift? then After(input, shifted) else shifted
  }

  /** Every step consumes a token or gets closer to consuming one. */
  lemma Progresses(c: Config, input: seq<Token>, shifted: nat, action: Action)
    requires Sound(c) && shifted <= |input| && !c.stage.SAccepted? && !action.Error?
    requires forall i :: 0 <= i < |input| ==> input[i].code > 0
    requires var code := if shifted < |input| then input[shifted].code else YYEOF;
      action == ActionOn(TopState(c.stage), Translate(code))
    ensures shifted <= CountAfter(input, shifted, action) <= |input|
    ensures CountAfter(input, shifted, action) == shifted ==>
      Rank(ConfigAfter(c, input, shifted, action).stage) < Rank(c.stage)
  {
    if action.Shift? {
      ShiftRank(c, input, shifted);
    } else {
      ReducesOn(c, if shifted < |input| then input[shifted].code else YYEOF, action.rule);
      ReduceDepth(c, action.rule);
    }
  }

  lemma EndFits(c: Config, values: seq<string>, text: string)
    requires c.stage.SWhole? && c.outer == [] && Fits(values, c)
    ensures Fits(values + [text], ShiftEnd(c))
  {
  }

  /** The configuration after the lookahead is shifted, and how much of the input is then consumed. */
  ghost function ShiftOn(c: Config, input: seq<Token>, shifted: nat): Config {
    if shifted < |input| then ShiftToken(c, input[shifted]) else ShiftEnd(c)
  }

  ghost function After(input: seq<Token>, shifted: nat): nat {
    if shifted < |input| then shifted + 1 else shifted
  }

  lemma ShiftsToken(c: Config, input: seq<Token>, shifted: nat, values: seq<string>)
    requires Sound(c) && shifted < |input| && CanTake(c.stage, input[shifted].code)
    requires Fits(values, c) && Nested(c, input[..shifted])
    requires FeedAll(START, input[..shifted]) == At(ReadingOf(c))
    ensures var t := input[shifted]; var c' := ShiftToken(c, t);
      && Sound(c') && Stack(c') == Stack(c) + [TopState(c'.stage)]
      && Fits(values + [t.text], c') && TablesOf(c') == TablesOf(c)
      && FeedAll(START, input[..shifted + 1]) == At(ReadingOf(c')) && Nested(c', input[..shifted + 1])
      && !c'.stage.SReported? && !c'.stage.SAccepted?
  {
    hide ReadingOf, CanTake, Sound, Fits, TablesOf, TopState, ShiftToken, Stack, Nested, Feed;
    var t := input[shifted];
    ShiftReads(c, t);
    ShiftStacks(c, t);
    ShiftValues(c, t, values);
    ShiftNested(c, t, input[..shifted]);
    assert input[..shifted + 1] == input[..shifted] + [t];
    assert input[..shifted + 1][..shifted] == input[..shifted];
    NotReported(c, t);
  }

  lemma Shifts(c: Config, input: seq<Token>, shifted: nat, state: int, values: seq<string>, text: string)
    requires Sound(c) && shifted <= |input| && forall i :: 0 <= i < |input| ==> input[i].code > 0
    requires var code := if shifted < |input| then input[shifted].code else YYEOF;
      ActionOn(TopState(c.stage), Translate(code)) == Shift(state)
    requires shifted < |input| ==> text == input[shifted].text
    requires Fits(values, c) && Nested(c, input[..shifted])
    requires FeedAll(START, input[..shifted]) == At(ReadingOf(c))
    ensures var c' := ShiftOn(c, input, shifted); var n := After(input, shifted);
      && Sound(c') && Stack(c') == Stack(c) + [state] && state == TopState(c'.stage)
      && Fits(values + [text], c') && TablesOf(c') == TablesOf(c)
      && n <= |input| && FeedAll(START, input[..n]) == At(ReadingOf(c')) && Nested(c', input[..n])
      && !c'.stage.SReported? && (c'.stage.SAccepted? ==> n == |input|)
  {
    hide ReadingOf, CanTake, Sound, Fits, TablesOf, TopState, ShiftToken, Stack, Nested, Feed, ActionOn, Translate;
    if shifted < |input| {
      TablesTake(c, input[shifted]);
      ShiftsToken(c, input, shifted, values);
    } else {
      Translations(0);
      ShiftsEnd(c);
      EndState(c);
      EndFits(c, values, text);
    }
  }

  lemma EndState(c: Config)
    requires c.stage.SWhole?
    ensures TopState(ShiftEnd(c).stage) == YYFINAL && ShiftEnd(c).stage.SAccepted?
    ensures Sound(c) ==> c.outer == []
    ensures forall ts :: Nested(c, ts) ==> Nested(ShiftEnd(c), ts)
  {
  }

  lemma ShiftRank(c: Config, input: seq<Token>, shifted: nat)
    requires Sound(c) && shifted <= |input|
    ensures shifted == |input| && ActionOn(TopState(c.stage), Translate(YYEOF)).Shift? ==>
      Rank(ShiftEnd(c).stage) < Rank(c.stage)
  {
    Translations(0);
    if ActionOn(TopState(c.stage), 0).Shift? { ShiftsEnd(c); }
  }

  lemma NotReported(c: Config, t: Token)
    ensures CanTake(c.stage, t.code) ==> !ShiftToken(c, t).stage.SReported? && !ShiftToken(c, t).stage.SAccepted?
  {
  }

  lemma OnReducing(c: Config, rule: int, ts: seq<Token>)
    requires Sound(c) && CanReduce(c.stage, rule)
    ensures ReadingOf(ReduceConfig(c)) == ReadingOf(c)
    ensures Nested(c, ts) ==> Nested(ReduceConfig(c), ts)
    ensures ReduceConfig(c).stage.SReported? ==> c.stage.SIn?
    ensures !ReduceConfig(c).stage.SAccepted?
  {
    ReduceReads(c, rule);
    ReduceDepth(c, rule);
    OnlyInReports(c, rule);
  }

  lemma OnlyInReports(c: Config, rule: int)
    requires CanReduce(c.stage, rule)
    ensures ReduceConfig(c).stage.SReported? ==> c.stage.SIn?
    ensures !ReduceConfig(c).stage.SAccepted?
  {
  }

  lemma Begins(value: string)
    ensures Sound(BOTTOM) && Stack(BOTTOM) == [0] && Fits([value], BOTTOM) && TablesOf(BOTTOM) == NO_TABLES
    ensures TopState(BOTTOM.stage) == 0 && ReadingOf(BOTTOM) == START && FeedAll(START, []) == At(START)
    ensures Nested(BOTTOM, [])
  {
  }

  lemma StateInRange(s: Stage)
    ensures 0 <= TopState(s) < 18
    ensures TopState(s) == YYFINAL <==> s.SAccepted?
  {
  }

  /** The stacks give up only on input nested more than 1110 deep. */
  lemma Exhausted(c: Config, input: seq<Token>, shifted: nat)
    requires shifted <= |input| && Nested(c, input[..shifted]) && |Stack(c)| >= YYMAXDEPTH
    ensures MaxNesting(input) > 1110
  {
    StackSize(c);
    MaxNestingMonotone(input, shifted);
  }

  lemma Accepts(c: Config, input: seq<Token>, shifted: nat)
    requires TopState(c.stage) == YYFINAL && Sound(c) && (c.stage.SAccepted? ==> shifted == |input|)
    requires shifted <= |input| && FeedAll(START, input[..shifted]) == At(ReadingOf(c))
    ensures Derives(input)
    ensures forall e :: ParsesAs(input, e) ==> TablesOf(c) == Walk(NO_TABLES, e)
  {
    StateInRange(c.stage);
    assert input[..shifted] == input;
    FeedCharacterises(input, c.stage.e);
    forall e | ParsesAs(input, e) ensures e == c.stage.e {
      Unambiguous(input, e, c.stage.e);
    }
  }

  lemma Rejects(c: Config, input: seq<Token>, shifted: nat)
    requires shifted <= |input| && FeedAll(START, input[..shifted]) == At(ReadingOf(c))
    requires Sound(c) && !c.stage.SAccepted? && forall i :: 0 <= i < |input| ==> input[i].code > 0
    requires var code := if shifted < |input| then input[shifted].code else YYEOF;
      ActionOn(TopState(c.stage), Translate(code)).Error? && Waiting(c, code)
    ensures !Derives(input)
  {
    if shifted < |input| {
      var t := input[shifted];
      ErrorIsStuck(c, t);
      assert input[..shifted + 1][..shifted] == input[..shifted];
      assert FeedAll(START, input[..shifted + 1]).Stuck?;
      assert input == input[..shifted + 1] + input[shifted + 1..];
      FeedAppend(START, input[..shifted + 1], input[shifted + 1..]);
    } else {
      Translations(0);
      ErrorAtEnd(c);
      assert input[..shifted] == input;
    }
    forall e ensures !ParsesAs(input, e) {
      FeedCharacterises(input, e);
    }
  }

  lemma ReducesOn(c: Config, code: int, rule: int)
    requires Sound(c) && !c.stage.SAccepted? && code >= 0
    requires ActionOn(TopState(c.stage), Translate(code)) == Reduce(rule)
    ensures CanReduce(c.stage, rule)
    ensures c.stage.SIn? ==> code != LEFT_PAREN && code != STRING && YYPACT[TopState(c.stage)] != YYPACT_NINF
  {
    Translations(code);
    TablesReduce(c, Translate(code), rule);
  }

  lemma ReducesByRule(c: Config, rule: int)
    requires Sound(c) && CanReduce(c.stage, rule)
    ensures 2 <= rule <= 10 && YYR2[rule] < |Stack(c)| == Size(c)
    ensures rule == 3 ==> c.stage.SCat?
    ensures rule == 4 ==> c.stage.SHead?
    ensures rule == 5 ==> c.stage.SIn?
  {
    ReduceStacks(c, rule);
  }

  /** All that a reduction does to a configuration. */
  lemma Reduction(c: Config, rule: int, values: seq<string>, yyval: string, top: string, name: string)
    requires Sound(c) && CanReduce(c.stage, rule) && Fits(values, c)
    requires 2 <= rule <= 10 && |values| >= 1 && top == values[|values| - 1]
    requires rule == 3 ==> c.stage.SCat? && top == c.stage.cat.text
    requires rule == 4 ==> c.stage.SHead? && top == c.stage.head.text
    requires rule == 5 ==> c.stage.SIn? && name == NameAfter(c.outer, c.stage.f.cat)
    ensures Sound(ReduceConfig(c))
    ensures TablesOf(ReduceConfig(c)) == RuleAction(TablesOf(c), rule, top, name)
    ensures Fits(ReducedValues(c, rule, values, yyval), ReduceConfig(c))
    ensures Stack(ReduceConfig(c)) == ReducedStack(rule, Stack(c))
    ensures TopOf(ReducedStack(rule, Stack(c))) == TopState(ReduceConfig(c).stage)
  {
    hide Sound, CanReduce, ReduceConfig, Fits, TablesOf, RuleAction, TopState, Goto, Stack, Size, ReducedValues,
      ReducedStack;
    FitsSize(c, values);
    ReduceReads(c, rule);
    ReduceTables(c, rule, top, name);
    ReduceStacks(c, rule);
    ReduceValues(c, rule, values, yyval);
    StackTop(ReduceConfig(c));
  }

  lemma FitsSize(c: Config, values: seq<string>)
    requires Fits(values, c)
    ensures |values| == Size(c)
  {
    hide Size, OuterFits, StageFits;
  }

  ghost function TopOf(stack: seq<int>): int { if stack == [] then -1 else stack[|stack| - 1] }

  lemma ReadsCategory(c: Config, values: seq<string>)
    requires c.stage.SCat? && Fits(values, c)
    ensures |values| >= 1 && values[|values| - 1] == c.stage.cat.text
    ensures NameAfter(c.outer, c.stage.cat) == c.stage.cat.text + Decimal(TablesOf(c).tokens + 1)
  {
    hide OuterTables, NodesOuter, Decimal, OuterFits;
    OuterCounts(c.outer);
  }

  /** The value cells that the action of `rule` reads. */
  lemma ReadsBelow(c: Config, rule: int, values: seq<string>)
    requires Sound(c) && CanReduce(c.stage, rule) && Fits(values, c)
    ensures |values| >= 1 && (rule == 5 ==> |values| >= 7)
    ensures rule == 3 ==> c.stage.SCat? && values[|values| - 1] == c.stage.cat.text
    ensures rule == 3 ==> NameAfter(c.outer, c.stage.cat) == c.stage.cat.text + Decimal(TablesOf(c).tokens + 1)
    ensures rule == 4 ==> c.stage.SHead? && values[|values| - 1] == c.stage.head.text
    ensures rule == 5 ==> c.stage.SIn? && values[|values| - 7] == NameAfter(c.outer, c.stage.f.cat)
  {
    if c.stage.SCat? {
      ReadsCategory(c, values);
    }
  }
}
