/** The constituency grammar: its tokens, its parse trees and a token-level pushdown reading of it.

    `expression` and `sub_expression` are the two nonterminals of the grammar; a value of type
    `Expression` is a derivation of the first, a value of type `SubExpression` one of the second. */
module Grammar {

  /** One answer of the lexer: the token number and the semantic value. */
  datatype Token = Token(code: int, text: string)

  const LEFT_PAREN := 258
  const RIGHT_PAREN := 259
  const SLASH := 260
  const TOK_CATEGORY := 261
  const STRING := 262

  /** expression: LEFT_PAREN TOK_CATEGORY STRING SLASH TOK_CATEGORY sub_expression RIGHT_PAREN */
  datatype Expression =
    Expression(open: Token, cat: Token, head: Token, slash: Token, cat2: Token,
               sub: SubExpression, close: Token)

  /** sub_expression: expression | sub_expression expression | STRING | sub_expression STRING */
  datatype SubExpression =
    | One(e: Expression)
    | More(s: SubExpression, e: Expression)
    | Word(w: Token)
    | MoreWord(s: SubExpression, w: Token)

  ghost predicate WellFormed(e: Expression) {
    && e.open.code == LEFT_PAREN && e.cat.code == TOK_CATEGORY && e.head.code == STRING
    && e.slash.code == SLASH && e.cat2.code == TOK_CATEGORY && e.close.code == RIGHT_PAREN
    && WellFormedSub(e.sub)
  }

  ghost predicate WellFormedSub(s: SubExpression) {
    match s
    case One(e) => WellFormed(e)
    case More(s', e) => WellFormedSub(s') && WellFormed(e)
    case Word(w) => w.code == STRING
    case MoreWord(s', w) => WellFormedSub(s') && w.code == STRING
  }

  ghost function Yield(e: Expression): seq<Token> {
    [e.open, e.cat, e.head, e.slash, e.cat2] + YieldSub(e.sub) + [e.close]
  }

  ghost function YieldSub(s: SubExpression): seq<Token> {
    match s
    case One(e) => Yield(e)
    case More(s', e) => YieldSub(s') + Yield(e)
    case Word(w) => [w]
    case MoreWord(s', w) => YieldSub(s') + [w]
  }

  ghost predicate ParsesAs(input: seq<Token>, e: Expression) {
    WellFormed(e) && Yield(e) == input
  }

  /** The input derives from the grammar's start symbol. */
  ghost predicate Derives(input: seq<Token>) {
    exists e :: ParsesAs(input, e)
  }

  // ------------------------------------------------------------------------------------------
  // Reading one token at a time
  // ------------------------------------------------------------------------------------------

  /** An expression whose right parenthesis has not been seen; `sub` is what follows the second
      category so far. */
  datatype Frame = Frame(open: Token, cat: Token, head: Token, slash: Token, cat2: Token, sub: Partial)

  datatype Partial = NoSub | HasSub(s: SubExpression)

  datatype Top =
    | Start
    | Opened(open: Token)
    | Named(open: Token, cat: Token)
    | Headed(open: Token, cat: Token, head: Token)
    | Slashed(open: Token, cat: Token, head: Token, slash: Token)
    | In(f: Frame)
    | Whole(e: Expression)

  /** The enclosing unfinished expressions, outermost first, and the innermost unfinished one. */
  datatype Reading = Reading(outer: seq<Frame>, top: Top)

  datatype Outcome = Stuck | At(r: Reading)

  ghost function AddExpression(p: Partial, e: Expression): SubExpression {
    match p case NoSub => One(e) case HasSub(s) => More(s, e)
  }

  ghost function AddWord(p: Partial, w: Token): SubExpression {
    match p case NoSub => Word(w) case HasSub(s) => MoreWord(s, w)
  }

  ghost function Finish(f: Frame, close: Token): Expression
    requires f.sub.HasSub?
  {
    Expression(f.open, f.cat, f.head, f.slash, f.cat2, f.sub.s, close)
  }

  /** What the reading is once the innermost expression `e` is complete. */
  ghost function Completed(outer: seq<Frame>, e: Expression): Reading {
    if outer == [] then Reading([], Whole(e))
    else
      var f := outer[|outer| - 1];
      Reading(outer[..|outer| - 1], In(f.(sub := HasSub(AddExpression(f.sub, e)))))
  }

  ghost function Feed(r: Reading, t: Token): Outcome {
    match r.top
    case Start => if t.code == LEFT_PAREN then At(r.(top := Opened(t))) else Stuck
    case Opened(o) => if t.code == TOK_CATEGORY then At(r.(top := Named(o, t))) else Stuck
    case Named(o, c) => if t.code == STRING then At(r.(top := Headed(o, c, t))) else Stuck
    case Headed(o, c, h) => if t.code == SLASH then At(r.(top := Slashed(o, c, h, t))) else Stuck
    case Slashed(o, c, h, s) =>
      if t.code == TOK_CATEGORY then At(r.(top := In(Frame(o, c, h, s, t, NoSub)))) else Stuck
    case In(f) =>
      if t.code == LEFT_PAREN then At(Reading(r.outer + [f], Opened(t)))
      else if t.code == STRING then At(r.(top := In(f.(sub := HasSub(AddWord(f.sub, t))))))
      else if t.code == RIGHT_PAREN && f.sub.HasSub? then At(Completed(r.outer, Finish(f, t)))
      else Stuck
    case Whole(_) => Stuck
  }

  ghost function FeedAll(r: Reading, ts: seq<Token>): Outcome {
    if ts == [] then At(r)
    else match FeedAll(r, ts[..|ts| - 1])
      case Stuck => Stuck
      case At(r') => Feed(r', ts[|ts| - 1])
  }

  const START := Reading([], Start)

  lemma {:induction false} FeedAppend(r: Reading, a: seq<Token>, b: seq<Token>)
    ensures FeedAll(r, a).At? ==> FeedAll(r, a + b) == FeedAll(FeedAll(r, a).r, b)
    ensures FeedAll(r, a).Stuck? ==> FeedAll(r, a + b).Stuck?
    decreases |b|
  {
    if b == [] {
      assert a + b == a;
    } else {
      var b' := b[..|b| - 1];
      assert (a + b)[..|a + b| - 1] == a + b';
      FeedAppend(r, a, b');
    }
  }

  lemma FeedOne(r: Reading, t: Token)
    ensures FeedAll(r, [t]) == Feed(r, t)
  {
    assert [t][..0] == [];
    assert FeedAll(r, []) == At(r);
  }

  lemma FeedThen(r: Reading, t: Token, ts: seq<Token>)
    requires Feed(r, t).At?
    ensures FeedAll(r, [t] + ts) == FeedAll(Feed(r, t).r, ts)
  {
    FeedOne(r, t);
    FeedAppend(r, [t], ts);
  }

  /** The readings that lead from where an expression may start to just after its second category. */
  lemma FeedHeader(outer: seq<Frame>, e: Expression, tail: seq<Token>)
    requires WellFormed(e)
    ensures FeedAll(Reading(outer, Opened(e.open)), [e.cat, e.head, e.slash, e.cat2] + tail)
         == FeedAll(Reading(outer, In(Frame(e.open, e.cat, e.head, e.slash, e.cat2, NoSub))), tail)
  {
    var t4 := [e.cat2] + tail;
    var t3 := [e.slash] + t4;
    var t2 := [e.head] + t3;
    assert [e.cat, e.head, e.slash, e.cat2] + tail == [e.cat] + t2;
    FeedThen(Reading(outer, Opened(e.open)), e.cat, t2);
    FeedThen(Reading(outer, Named(e.open, e.cat)), e.head, t3);
    FeedThen(Reading(outer, Headed(e.open, e.cat, e.head)), e.slash, t4);
    FeedThen(Reading(outer, Slashed(e.open, e.cat, e.head, e.slash)), e.cat2, tail);
  }

  /** Reading the tokens of a derivation of `expression` where one may start completes exactly
      that expression. */
  lemma {:induction false} FeedExpression(r: Reading, e: Expression)
    requires WellFormed(e)
    requires r.top.In? || r == START
    ensures FeedAll(r, Yield(e)) ==
            At(Completed(if r.top.In? then r.outer + [r.top.f] else [], e))
    decreases e, 1
  {
    hide FeedAll, YieldSub, Completed, Feed;
    var outer := if r.top.In? then r.outer + [r.top.f] else [];
    var inside := Reading(outer, In(Frame(e.open, e.cat, e.head, e.slash, e.cat2, NoSub)));
    var tail := YieldSub(e.sub) + [e.close];
    assert Yield(e) == [e.open] + ([e.cat, e.head, e.slash, e.cat2] + tail);
    FeedFirst(r, e);
    FeedThen(r, e.open, [e.cat, e.head, e.slash, e.cat2] + tail);
    FeedHeader(outer, e, tail);
    FeedSub(inside, e.sub);
    FeedAppend(inside, YieldSub(e.sub), [e.close]);
    FeedLast(outer, e);
  }

  lemma FeedFirst(r: Reading, e: Expression)
    requires WellFormed(e) && (r.top.In? || r == START)
    ensures Feed(r, e.open) == At(Reading(if r.top.In? then r.outer + [r.top.f] else [], Opened(e.open)))
  {
  }

  lemma FeedLast(outer: seq<Frame>, e: Expression)
    requires WellFormed(e)
    ensures FeedAll(Reading(outer, In(Frame(e.open, e.cat, e.head, e.slash, e.cat2, HasSub(e.sub)))), [e.close])
         == At(Completed(outer, e))
  {
    FeedOne(Reading(outer, In(Frame(e.open, e.cat, e.head, e.slash, e.cat2, HasSub(e.sub)))), e.close);
  }

  lemma {:induction false} FeedSub(r: Reading, s: SubExpression)
    requires WellFormedSub(s)
    requires r.top.In? && r.top.f.sub.NoSub?
    ensures FeedAll(r, YieldSub(s)) == At(r.(top := In(r.top.f.(sub := HasSub(s)))))
    decreases s, 0
  {
    match s
    case One(e) =>
      FeedExpression(r, e);
    case More(s', e) =>
      FeedSub(r, s');
      FeedAppend(r, YieldSub(s'), Yield(e));
      FeedExpression(r.(top := In(r.top.f.(sub := HasSub(s')))), e);
    case Word(w) =>
      FeedOne(r, w);
    case MoreWord(s', w) =>
      FeedSub(r, s');
      FeedAppend(r, YieldSub(s'), [w]);
      FeedOne(r.(top := In(r.top.f.(sub := HasSub(s')))), w);
  }

  // ------------------------------------------------------------------------------------------
  // What a reading has consumed
  // ------------------------------------------------------------------------------------------

  ghost function YieldFrame(f: Frame): seq<Token> {
    [f.open, f.cat, f.head, f.slash, f.cat2] + (if f.sub.HasSub? then YieldSub(f.sub.s) else [])
  }

  ghost function YieldFrames(fs: seq<Frame>): seq<Token> {
    if fs == [] then [] else YieldFrames(fs[..|fs| - 1]) + YieldFrame(fs[|fs| - 1])
  }

  ghost function YieldTop(t: Top): seq<Token> {
    match t
    case Start => []
    case Opened(o) => [o]
    case Named(o, c) => [o, c]
    case Headed(o, c, h) => [o, c, h]
    case Slashed(o, c, h, s) => [o, c, h, s]
    case In(f) => YieldFrame(f)
    case Whole(e) => Yield(e)
  }

  ghost predicate WellFormedFrame(f: Frame) {
    && f.open.code == LEFT_PAREN && f.cat.code == TOK_CATEGORY && f.head.code == STRING
    && f.slash.code == SLASH && f.cat2.code == TOK_CATEGORY
    && (f.sub.HasSub? ==> WellFormedSub(f.sub.s))
  }

  ghost predicate WellFormedTop(t: Top) {
    && (t.Opened? || t.Named? || t.Headed? || t.Slashed? ==> t.open.code == LEFT_PAREN)
    && (t.Named? || t.Headed? || t.Slashed? ==> t.cat.code == TOK_CATEGORY)
    && (t.Headed? || t.Slashed? ==> t.head.code == STRING)
    && (t.Slashed? ==> t.slash.code == SLASH)
    && (t.In? ==> WellFormedFrame(t.f))
    && (t.Whole? ==> WellFormed(t.e))
  }

  ghost predicate WellFormedReading(r: Reading) {
    && (forall i :: 0 <= i < |r.outer| ==> WellFormedFrame(r.outer[i]))
    && WellFormedTop(r.top)
    && (r.top.Start? || r.top.Whole? ==> r.outer == [])
  }

  ghost function YieldReading(r: Reading): seq<Token> {
    YieldFrames(r.outer) + YieldTop(r.top)
  }

  lemma FeedOpen(r: Reading, t: Token)
    requires WellFormedReading(r) && r.top.In? && t.code == LEFT_PAREN
    ensures WellFormedReading(Feed(r, t).r)
    ensures YieldReading(Feed(r, t).r) == YieldReading(r) + [t]
  {
    assert (r.outer + [r.top.f])[..|r.outer|] == r.outer;
  }

  lemma YieldCompleted(outer: seq<Frame>, e: Expression)
    requires outer != []
    ensures YieldReading(Completed(outer, e)) == YieldFrames(outer) + Yield(e)
  {
    var f := outer[|outer| - 1];
    YieldAdded(f, e);
    hide YieldFrame, Yield;
    var front := YieldFrames(outer[..|outer| - 1]);
    assert YieldFrames(outer) == front + YieldFrame(f);
    assert front + (YieldFrame(f) + Yield(e)) == front + YieldFrame(f) + Yield(e);
  }

  lemma YieldAdded(f: Frame, e: Expression)
    ensures YieldFrame(f.(sub := HasSub(AddExpression(f.sub, e)))) == YieldFrame(f) + Yield(e)
  {
    hide Yield;
  }

  lemma FeedClose(r: Reading, t: Token)
    requires WellFormedReading(r) && r.top.In? && r.top.f.sub.HasSub? && t.code == RIGHT_PAREN
    ensures WellFormedReading(Feed(r, t).r)
    ensures YieldReading(Feed(r, t).r) == YieldReading(r) + [t]
  {
    var e := Finish(r.top.f, t);
    assert Feed(r, t).r == Completed(r.outer, e);
    assert Yield(e) == YieldFrame(r.top.f) + [t];
    if r.outer != [] {
      YieldCompleted(r.outer, e);
      assert WellFormed(e);
      assert WellFormedFrame(r.outer[|r.outer| - 1]);
    }
  }

  lemma FeedWord(r: Reading, t: Token)
    requires WellFormedReading(r) && r.top.In? && t.code == STRING
    ensures WellFormedReading(Feed(r, t).r)
    ensures YieldReading(Feed(r, t).r) == YieldReading(r) + [t]
  {
    var f := r.top.f;
    assert YieldFrame(f.(sub := HasSub(AddWord(f.sub, t)))) == YieldFrame(f) + [t];
  }

  lemma FeedStep(r: Reading, t: Token)
    requires WellFormedReading(r) && Feed(r, t).At?
    ensures WellFormedReading(Feed(r, t).r)
    ensures YieldReading(Feed(r, t).r) == YieldReading(r) + [t]
  {
    if r.top.In? {
      if t.code == LEFT_PAREN {
        FeedOpen(r, t);
      } else if t.code == STRING {
        FeedWord(r, t);
      } else {
        FeedClose(r, t);
      }
    } else {
      var r' := Feed(r, t).r;
      assert YieldTop(r'.top) == YieldTop(r.top) + [t];
    }
  }

  lemma {:induction false} FeedSound(ts: seq<Token>)
    requires FeedAll(START, ts).At?
    ensures WellFormedReading(FeedAll(START, ts).r)
    ensures YieldReading(FeedAll(START, ts).r) == ts
  {
    if ts != [] {
      var ts' := ts[..|ts| - 1];
      FeedSound(ts');
      FeedStep(FeedAll(START, ts').r, ts[|ts| - 1]);
      assert ts == ts' + [ts[|ts| - 1]];
    }
  }

  /** Reading a token sequence reaches a whole expression exactly when the sequence derives from
      the grammar, and then the expression reached is that derivation. */
  lemma FeedCharacterises(input: seq<Token>, e: Expression)
    ensures ParsesAs(input, e) <==> FeedAll(START, input) == At(Reading([], Whole(e)))
  {
    if ParsesAs(input, e) {
      FeedExpression(START, e);
    }
    if FeedAll(START, input) == At(Reading([], Whole(e))) {
      FeedSound(input);
    }
  }

  /** The grammar is unambiguous. */
  lemma Unambiguous(input: seq<Token>, e1: Expression, e2: Expression)
    requires ParsesAs(input, e1) && ParsesAs(input, e2)
    ensures e1 == e2
  {
    FeedCharacterises(input, e1);
    FeedCharacterises(input, e2);
  }

  // ------------------------------------------------------------------------------------------
  // Nesting of parentheses
  // ------------------------------------------------------------------------------------------

  /** Left parentheses not yet closed. */
  ghost function Balance(ts: seq<Token>): int {
    if ts == [] then 0
    else
      var c := ts[|ts| - 1].code;
      Balance(ts[..|ts| - 1]) + (if c == LEFT_PAREN then 1 else if c == RIGHT_PAREN then -1 else 0)
  }

  /** The deepest nesting of left parentheses anywhere in the sequence. */
  ghost function MaxNesting(ts: seq<Token>): int {
    if ts == [] then 0
    else
      var m := MaxNesting(ts[..|ts| - 1]);
      if Balance(ts) > m then Balance(ts) else m
  }

  lemma {:induction false} MaxNestingMonotone(ts: seq<Token>, n: nat)
    requires n <= |ts|
    ensures MaxNesting(ts[..n]) <= MaxNesting(ts)
    decreases |ts|
  {
    if n < |ts| {
      assert ts[..|ts| - 1][..n] == ts[..n];
      MaxNestingMonotone(ts[..|ts| - 1], n);
    } else {
      assert ts[..n] == ts;
    }
  }
}
