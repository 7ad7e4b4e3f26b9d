/** The compressed tables of the generated parser, and what they say in each state. */
module LalrTables {
  const YYFINAL := 4
  const YYLAST := 12
  const YYNTOKENS := 8
  const YYMAXUTOK := 262
  const YYUNDEFTOK := 2
  const YYPACT_NINF := -8
  const YYTERROR := 1

  /** Entries 256 to 262 of yytranslate; entry 0 is 0 and entries 1 to 255 are YYUNDEFTOK. */
  const YYTRANSLATE_FROM_256: seq<int> := [1, 2, 3, 4, 5, 6, 7]
  const YYPACT: seq<int> := [-1, -8, 7, 2, -8, -8, 3, -8, 4, 5, -3, -8, -8, -2, -8, -8, 8, -8]
  const YYDEFACT: seq<int> := [0, 2, 0, 0, 1, 3, 0, 4, 0, 0, 0, 9, 7, 5, 10, 8, 0, 6]
  const YYPGOTO: seq<int> := [-8, -7, -8, -8, -8, -8, -8]
  const YYDEFGOTO: seq<int> := [-1, 2, 3, 6, 8, 16, 13]
  const YYTABLE: seq<int> := [1, 1, 1, 12, 11, 14, 15, 4, 5, 9, 7, 10, 17]
  const YYCHECK: seq<int> := [3, 3, 3, 10, 7, 7, 13, 0, 6, 5, 7, 6, 4]
  const YYR1: seq<int> := [0, 8, 10, 11, 12, 13, 9, 14, 14, 14, 14]
  const YYR2: seq<int> := [0, 2, 0, 0, 0, 0, 11, 1, 2, 1, 2]

  datatype Action = Shift(state: int) | Reduce(rule: int) | Error

  /** The internal number of a token number answered by the lexer. */
  function Translate(code: int): int {
    if code == 0 then 0
    else if 256 <= code <= YYMAXUTOK then YYTRANSLATE_FROM_256[code - 256]
    else YYUNDEFTOK
  }

  function DefaultAction(state: int): Action
    requires 0 <= state < 18
  {
    if YYDEFACT[state] == 0 then Error else Reduce(YYDEFACT[state])
  }

  /** The action of `state` on the internal token number `token`. */
  function ActionOn(state: int, token: int): Action
    requires 0 <= state < 18
  {
    var i := YYPACT[state] + token;
    if YYPACT[state] == YYPACT_NINF || i < 0 || YYLAST < i || YYCHECK[i] != token then DefaultAction(state)
    else if YYTABLE[i] <= 0 then Reduce(-YYTABLE[i])
    else Shift(YYTABLE[i])
  }

  function Goto(rule: int, state: int): int
    requires 1 <= rule <= 10
  {
    var i := YYPGOTO[YYR1[rule] - YYNTOKENS] + state;
    if 0 <= i <= YYLAST && YYCHECK[i] == state then YYTABLE[i] else YYDEFGOTO[YYR1[rule] - YYNTOKENS]
  }

  /** No state can shift the error token, so error recovery always empties the stack. */
  lemma NoErrorShift(state: int)
    requires 0 <= state < 18
    ensures var i := YYPACT[state] + YYTERROR; !(0 <= i <= YYLAST && YYCHECK[i] == YYTERROR)
  {
  }

  lemma Translations(code: int)
    ensures code == 0 ==> Translate(code) == 0
    ensures code == 258 ==> Translate(code) == 3
    ensures code == 259 ==> Translate(code) == 4
    ensures code == 260 ==> Translate(code) == 5
    ensures code == 261 ==> Translate(code) == 6
    ensures code == 262 ==> Translate(code) == 7
    ensures !(code == 0 || 258 <= code <= 262) ==> Translate(code) in {1, 2}
  {
  }

  /** The action table written out: which states look at the token, and what they do with it. */
  function Decided(state: int, token: int): Action {
    if state == 1 then Reduce(2)
    else if state == 4 then Reduce(1)
    else if state == 5 then Reduce(3)
    else if state == 7 then Reduce(4)
    else if state == 11 then Reduce(9)
    else if state == 12 then Reduce(7)
    else if state == 14 then Reduce(10)
    else if state == 15 then Reduce(8)
    else if state == 17 then Reduce(6)
    else if state == 0 && token == 3 then Shift(1)
    else if state == 2 && token == 0 then Shift(4)
    else if state == 3 && token == 6 then Shift(5)
    else if state == 6 && token == 7 then Shift(7)
    else if state == 8 && token == 5 then Shift(9)
    else if state == 9 && token == 6 then Shift(10)
    else if state == 10 && token == 3 then Shift(1)
    else if state == 10 && token == 7 then Shift(11)
    else if state == 13 && token == 3 then Shift(1)
    else if state == 13 && token == 7 then Shift(14)
    else if state == 13 then Reduce(5)
    else if state == 16 && token == 4 then Shift(17)
    else Error
  }

  lemma TableDecides(state: int, token: int)
    requires 0 <= state < 18 && 0 <= token < 8
    ensures ActionOn(state, token) == Decided(state, token)
  {
  }
}
