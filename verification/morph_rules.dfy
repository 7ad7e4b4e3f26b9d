/** The rules of the scanner for morphological analyses, as its lex source writes them: its compressed tables recognise
    exactly what these rules describe. */
module MorphRules {
  import opened Bytes
  import opened FlexTables
  import opened LongestMatch

  // ------------------------------------------------------------------------------------------
  // Rules
  // ------------------------------------------------------------------------------------------

  datatype CharSet = One(x: byte) | WordChar | WordOrBlank | Lower | TenseChar | CaseChar | Anything

  predicate Letter(x: byte) { 'A' as int <= x <= 'Z' as int || 'a' as int <= x <= 'z' as int }

  predicate Has(cs: CharSet, x: byte) {
    match cs
    case One(y) => x == y
    case WordChar => Letter(x) || '0' as int <= x <= '9' as int
    case WordOrBlank => Letter(x) || '0' as int <= x <= '9' as int || x == ' ' as int
    case Lower => 'a' as int <= x <= 'z' as int
    case TenseChar => Letter(x) || x == '0' as int || x == '1' as int || x == '_' as int
    case CaseChar => Letter(x) || x == '0' as int || x == '_' as int
    case Anything => true
  }

  /** One character of a set, or any number of them. */
  datatype Item = Once(cs: CharSet) | Many(cs: CharSet)

  /** The text is made up of parts as the items describe them, one after the other. */
  ghost predicate Fits(r: seq<Item>, w: seq<byte>) {
    if r == [] then w == []
    else if r[0].Once? then w != [] && Has(r[0].cs, w[0]) && Fits(r[1..], w[1..])
    else exists k :: 0 <= k <= |w| && AllIn(r[0].cs, w[..k]) && Fits(r[1..], w[k..])
  }

  predicate AllIn(cs: CharSet, w: seq<byte>) {
    forall i :: 0 <= i < |w| ==> Has(cs, w[i])
  }

  const RULES := 7

  /** The rules in their order, the last one the echo of any character. */
  function Rule(k: int): seq<Item> {
    if k == 1 then [Once(One(94)), Many(WordOrBlank)]
    else if k == 2 then [Many(WordChar), Once(One(47)), Once(One(42)), Many(WordChar), Once(One(36))]
    else if k == 3 then [Many(WordOrBlank), Once(One(60)), Once(One(99)), Once(One(97)), Once(One(116)), Once(One(58)),
                         Many(Lower), Once(One(62))]
    else if k == 4 then [Once(One(60)), Once(One(116)), Once(One(97)), Once(One(109)), Once(One(58)), Once(TenseChar),
                         Many(TenseChar), Once(One(62))]
    else if k == 5 then [Once(One(10))]
    else if k == 6 then [Once(One(60)), Once(One(112)), Once(One(97)), Once(One(114)), Once(One(115)), Once(One(97)),
                         Once(One(114)), Once(One(103)), Once(One(58)), Once(CaseChar), Many(CaseChar), Once(One(62))]
    else [Once(Anything)]
  }

  /** The first rule from `k` on that describes the whole text, or zero. */
  ghost function FirstFrom(k: nat, w: seq<byte>): (r: nat)
    requires 1 <= k <= RULES + 1
    ensures r != 0 ==> k <= r <= RULES && Fits(Rule(r), w)
    ensures forall j :: k <= j <= RULES && (r == 0 || j < r) ==> !Fits(Rule(j), w)
    decreases RULES + 1 - k
  {
    if k > RULES then 0 else if Fits(Rule(k), w) then k else FirstFrom(k + 1, w)
  }

  ghost function FirstRule(w: seq<byte>): nat { FirstFrom(1, w) }

  // ------------------------------------------------------------------------------------------
  // Reading along one rule
  // ------------------------------------------------------------------------------------------

  /** The place in the rule after one more character, or -1. */
  function Advance(r: seq<Item>, p: nat, x: byte): (q: int)
    ensures q == -1 || p <= q <= |r|
    decreases |r| - p
  {
    if p >= |r| then -1
    else if r[p].Once? then (if Has(r[p].cs, x) then p + 1 else -1)
    else if Has(r[p].cs, x) then p
    else Advance(r, p + 1, x)
  }

  /** A character that a repeated item takes cannot also begin what follows it. */
  ghost predicate Definite(r: seq<Item>) {
    forall p, x: byte :: 0 <= p < |r| && r[p].Many? && Has(r[p].cs, x) ==> Advance(r, p + 1, x) == -1
  }

  /** At this place the rule asks for nothing more. */
  predicate AllMany(r: seq<Item>, p: int) {
    0 <= p <= |r| && forall q :: p <= q < |r| ==> r[q].Many?
  }

  /** The place after a text. */
  function PlaceAfter(r: seq<Item>, w: seq<byte>): (p: int)
    ensures p == -1 || 0 <= p <= |r|
  {
    if w == [] then 0
    else
      var p := PlaceAfter(r, w[..|w| - 1]);
      if p < 0 then -1 else Advance(r, p, w[|w| - 1])
  }

  /** The characters of `w` up to `k` are in the set, and the rest fits what follows the repeated item. */
  ghost predicate Splits(r: seq<Item>, w: seq<byte>, k: int)
    requires r != []
  {
    0 <= k <= |w| && AllIn(r[0].cs, w[..k]) && Fits(r[1..], w[k..])
  }

  lemma FitsSplits(r: seq<Item>, w: seq<byte>)
    requires r != [] && r[0].Many?
    ensures Fits(r, w) <==> exists k :: Splits(r, w, k)
  {
    if Fits(r, w) {
      var k :| 0 <= k <= |w| && AllIn(r[0].cs, w[..k]) && Fits(r[1..], w[k..]);
      assert Splits(r, w, k);
    }
  }

  lemma SplitsShift(r: seq<Item>, w: seq<byte>, k: int)
    requires r != [] && w != [] && Has(r[0].cs, w[0])
    ensures k > 0 ==> (Splits(r, w, k) <==> Splits(r, w[1..], k - 1))
    ensures Splits(r, w, 0) ==> Fits(r[1..], w)
  {
    hide Fits;
    var cs, v := r[0].cs, w[1..];
    assert w[0..] == w;
    if 0 < k <= |w| {
      assert w[..k] == [w[0]] + v[..k - 1] && w[k..] == v[k - 1..];
      AllInCons(cs, w[0], v[..k - 1]);
    }
  }

  lemma AllInCons(cs: CharSet, x: byte, u: seq<byte>)
    requires Has(cs, x)
    ensures AllIn(cs, [x] + u) <==> AllIn(cs, u)
  {
    if AllIn(cs, [x] + u) {
      forall i | 0 <= i < |u| ensures Has(cs, u[i]) {
        assert ([x] + u)[i + 1] == u[i];
      }
    }
  }

  /** A repeated item that takes the first character, which what follows cannot begin with. */
  lemma RepeatTakes(r: seq<Item>, w: seq<byte>)
    requires r != [] && r[0].Many? && w != [] && Has(r[0].cs, w[0]) && !Fits(r[1..], w)
    ensures Fits(r, w) <==> Fits(r, w[1..])
  {
    hide Fits, Splits;
    FitsSplits(r, w);
    FitsSplits(r, w[1..]);
    forall k ensures k > 0 ==> (Splits(r, w, k) <==> Splits(r, w[1..], k - 1)) {
      SplitsShift(r, w, k);
    }
    if Fits(r, w) {
      var k :| Splits(r, w, k);
      SplitsShift(r, w, 0);
      SplitsPositive(r, w, k);
      assert Splits(r, w[1..], k - 1);
    }
    if Fits(r, w[1..]) {
      var k :| Splits(r, w[1..], k);
      SplitsPositive(r, w[1..], k);
      assert Splits(r, w, k + 1) by { SplitsShift(r, w, k + 1); }
    }
  }

  lemma SplitsPositive(r: seq<Item>, w: seq<byte>, k: int)
    requires r != [] && Splits(r, w, k)
    ensures k >= 0
  {
  }

  /** A repeated item that does not take the first character takes nothing. */
  lemma RepeatSkips(r: seq<Item>, w: seq<byte>)
    requires r != [] && r[0].Many? && w != [] && !Has(r[0].cs, w[0])
    ensures Fits(r, w) <==> Fits(r[1..], w)
  {
    var cs := r[0].cs;
    assert w[0..] == w && AllIn(cs, w[..0]);
    forall k | 0 < k <= |w| ensures !AllIn(cs, w[..k]) {
      assert w[..k][0] == w[0];
    }
  }

  lemma {:induction false} AdvanceFits(r: seq<Item>, p: nat, w: seq<byte>)
    requires Definite(r) && p <= |r| && w != []
    ensures Fits(r[p..], w) <==> Advance(r, p, w[0]) != -1 && Fits(r[Advance(r, p, w[0])..], w[1..])
    decreases |r| - p
  {
    if p == |r| {
      assert r[p..] == [];
    } else {
      assert r[p..][1..] == r[p + 1..];
      if r[p].Many? {
        hide Fits, AllIn;
        AdvanceFits(r, p + 1, w);
        if Has(r[p].cs, w[0]) {
          RepeatTakes(r[p..], w);
        } else {
          RepeatSkips(r[p..], w);
        }
      }
    }
  }

  lemma {:induction false} EmptyFits(r: seq<Item>, p: nat)
    requires p <= |r|
    ensures Fits(r[p..], []) <==> AllMany(r, p)
    decreases |r| - p
  {
    if p < |r| {
      assert r[p..][1..] == r[p + 1..];
      EmptyFits(r, p + 1);
      var none: seq<byte> := [];
      assert none[..0] == none && none[0..] == none;
    }
  }

  /** What a rule makes of a text is decided by the place after its first part. */
  lemma {:induction false} PlaceDecides(r: seq<Item>, w: seq<byte>, n: nat)
    requires Definite(r) && n <= |w|
    ensures var p := PlaceAfter(r, w[..n]); Fits(r, w) <==> p != -1 && Fits(r[p..], w[n..])
    decreases n
  {
    if n == 0 {
      assert w[..0] == [] && w[0..] == w && r[0..] == r;
    } else {
      PlaceDecides(r, w, n - 1);
      assert w[..n][..n - 1] == w[..n - 1] && w[n - 1..][1..] == w[n..];
      var p := PlaceAfter(r, w[..n - 1]);
      if p != -1 { AdvanceFits(r, p, w[n - 1..]); }
    }
  }

  /** A text fits a rule if and only if reading it leads to a place where nothing more is asked for. */
  lemma FitsByPlace(r: seq<Item>, w: seq<byte>)
    requires Definite(r)
    ensures Fits(r, w) <==> AllMany(r, PlaceAfter(r, w))
  {
    PlaceDecides(r, w, |w|);
    assert w[..|w|] == w && w[|w|..] == [];
    var p := PlaceAfter(r, w);
    if p != -1 { EmptyFits(r, p); }
  }

  lemma RepeatEnds(k: int, p: nat, x: byte)
    requires 1 <= k <= RULES && p < |Rule(k)| && Rule(k)[p].Many? && Has(Rule(k)[p].cs, x)
    ensures Advance(Rule(k), p + 1, x) == -1
  {
    if k == 1 {
    } else if k == 2 {
      assert p == 0 || p == 3;
    } else if k == 3 {
      assert p == 0 || p == 6;
    } else if k == 4 {
      assert p == 6;
    } else {
      assert k == 6 && p == 10;
    }
  }

  lemma RulesDefinite(k: int)
    requires 1 <= k <= RULES
    ensures Definite(Rule(k))
  {
    hide Rule;
    forall p, x: byte | 0 <= p < |Rule(k)| && Rule(k)[p].Many? && Has(Rule(k)[p].cs, x)
      ensures Advance(Rule(k), p + 1, x) == -1
    {
      RepeatEnds(k, p, x);
    }
  }

  // ------------------------------------------------------------------------------------------
  // The states of the automaton
  // ------------------------------------------------------------------------------------------

  predicate WordClass(c: int) { 7 <= c <= 9 || 15 <= c <= 23 }

  /** The entries that belong to a state itself, zero where there is none. */
  function Own(s: int, c: int): int {
    if s == 1 then
      if WordClass(c) then 8 else if c == 2 then 5 else if c == 3 then 6 else if c == 6 then 7 else if c == 11 then 9
      else if c == 13 then 10 else 4
    else if (s == 8 || s == 15) && c == 3 then 11
    else if (s == 6 || s == 8 || s == 11 || s == 15) && c == 11 then 12
    else if (s == 7 || s == 14) && c == 5 then 13
    else if (s == 8 || s == 15) && c == 6 then 14
    else if (s == 9 || s == 12) && c == 17 then 16
    else if s == 9 && c == 20 then 17
    else if s == 9 && c == 23 then 18
    else if (s == 13 || s == 21) && c == 4 then 20
    else if s == 16 && c == 15 then 22
    else if s == 17 && c == 15 then 23
    else if s == 18 && c == 15 then 24
    else if s == 22 && c == 23 then 25
    else if s == 23 && c == 21 then 26
    else if s == 24 && c == 19 then 27
    else if s == 25 && c == 10 then 28
    else if s == 26 && c == 22 then 29
    else if s == 27 && c == 10 then 30
    else if (s == 28 || s == 32) && c == 12 then 31
    else if s == 29 && c == 15 then 33
    else if s == 33 && c == 21 then 35
    else if s == 34 && c == 12 then 36
    else if s == 35 && c == 18 then 37
    else if s == 37 && c == 10 then 38
    else if s == 39 && c == 12 then 40
    else 0
  }

  /** The template of a state, or the jam state. */
  function Link(s: int): int {
    if s == 6 || s == 11 then 42 else if s == 8 || s == 15 then 43 else if s == 10 || s == 19 then 44
    else if s == 13 || s == 21 then 45 else if s == 28 || s == 32 then 46 else if s == 30 || s == 34 then 47
    else if s == 38 || s == 39 then 48 else 41
  }

  /** The entries of a template, by the class that yy_meta gives. */
  function Template(d: int, m: int): int {
    if d == 42 && (m == 2 || 5 <= m <= 8 || m == 11) then 11
    else if d == 43 && (m == 2 || 4 <= m <= 8 || m == 11) then 15
    else if d == 44 && (m == 2 || 5 <= m <= 7 || m == 11) then 19
    else if d == 45 && (m == 3 || 5 <= m <= 7 || m == 11) then 21
    else if d == 46 && (m == 9 || m == 11) then 32
    else if d == 47 && (m == 5 || m == 6 || m == 10 || m == 11) then 34
    else if d == 48 && (m == 5 || m == 10 || m == 11) then 39
    else 41
  }

  function Meta(c: int): int {
    if c == 3 then 2 else if c == 4 then 3 else if 6 <= c <= 9 then c - 2 else if c == 11 then 8 else if c == 12 then 9
    else if c == 14 then 10 else if c >= 15 then 11 else 1
  }

  /** Where the automaton goes from each state on each character class; state 41 is the jam. */
  function Delta(s: int, c: int): int {
    if Own(s, c) != 0 then Own(s, c) else Template(Link(s), Meta(c))
  }

  /** The place in rule `k` that a state stands for, or -1. */
  function Place(k: int, s: int): int {
    if k == 1 then
      if s == 1 then 0 else if s == 10 || s == 19 then 1 else -1
    else if k == 2 then
      if s == 1 || s == 8 || s == 15 then 0 else if s == 7 || s == 14 then 2 else if s == 13 || s == 21 then 3
      else if s == 20 then 5 else -1
    else if k == 3 then
      if s == 1 || s == 6 || s == 8 || s == 11 || s == 15 then 0 else if s == 9 || s == 12 then 2
      else if s == 16 then 3 else if s == 22 then 4 else if s == 25 then 5 else if s == 28 || s == 32 then 6
      else if s == 31 then 8 else -1
    else if k == 4 then
      if s == 1 then 0 else if s == 9 then 1 else if s == 18 then 2 else if s == 24 then 3 else if s == 27 then 4
      else if s == 30 then 5 else if s == 34 then 6 else if s == 36 then 8 else -1
    else if k == 5 then
      if s == 1 then 0 else if s == 5 then 1 else -1
    else if k == 6 then
      if s == 1 then 0 else if s == 9 then 1 else if s == 17 then 2 else if s == 23 then 3 else if s == 26 then 4
      else if s == 29 then 5 else if s == 33 then 6 else if s == 35 then 7 else if s == 37 then 8
      else if s == 38 then 9 else if s == 39 then 10 else if s == 40 then 12 else -1
    else
      if s == 1 then 0 else if 4 <= s <= 10 then 1 else -1
  }

  function Class(x: byte): int { if x == 0 then 1 else MorphEc(x) }

  /** In rule `k` a character leads from the place of one state to the place of the next one. */
  ghost predicate Moves(k: int, s: int, x: byte) {
    && State(Delta(s, Class(x)))
    && Place(k, s) <= |Rule(k)|
    && Place(k, Delta(s, Class(x))) == if Place(k, s) < 0 then -1 else Advance(Rule(k), Place(k, s), x)
  }

  predicate State(s: int) { s == 1 || 4 <= s <= 41 }

  /** Entry `i` of yy_chk and yy_nxt is one of those written out above. */
  ghost predicate Known(i: int)
    requires MorphSizes() && 1 <= i < 115 && 0 <= MorphChk()[i] < 49
  {
    var s := MorphChk()[i];
    && (1 <= s <= 40 && s != 3 ==>
          1 <= i - MorphBase()[s] < 24 && MorphNxt()[i] == Own(s, i - MorphBase()[s]) != 0)
    && (42 <= s ==> MorphNxt()[i] == Template(s, i - MorphBase()[s]) != 41)
  }

  lemma FirstRow(i: int)
    requires MorphSizes() && 1 <= i < 24
    ensures MorphNxt()[i] == Own(1, i) != 0
  {
  }

  lemma KnownFirst(i: int)
    requires MorphSizes() && 1 <= i < 24
    ensures MorphChk()[i] == 1 && Known(i)
  {
    hide MorphSizes, MorphChk, MorphNxt, MorphBase, Own;
    MorphFirsts(i);
    FirstRow(i);
  }

  lemma Cells24()
    requires MorphSizes()
    ensures MorphChk()[24] == 8 && MorphChk()[25] == 9 && MorphChk()[26] == 15
    ensures MorphNxt()[24] == 11 && MorphNxt()[25] == 16 && MorphNxt()[26] == 11
    ensures MorphBase()[8] == 21 && MorphBase()[9] == 8 && MorphBase()[15] == 23
  {
  }

  lemma Known24(i: int)
    requires MorphSizes() && 24 <= i < 27
    ensures 0 <= MorphChk()[i] < 49 && Known(i)
  {
    hide MorphChk, MorphNxt, MorphBase;
    Cells24();
    assert i == 24 || i == 25 || i == 26;
  }

  lemma Known27(i: int)
    requires MorphSizes() && 27 <= i < 30
    ensures 0 <= MorphChk()[i] < 49 && Known(i)
  {
  }

  lemma Known30(i: int)
    requires MorphSizes() && 30 <= i < 33
    ensures 0 <= MorphChk()[i] < 49 && Known(i)
  {
  }

  lemma Known33(i: int)
    requires MorphSizes() && 33 <= i < 36
    ensures 0 <= MorphChk()[i] < 49 && Known(i)
  {
  }

  lemma Known36(i: int)
    requires MorphSizes() && 36 <= i < 42
    ensures 0 <= MorphChk()[i] < 49 && Known(i)
  {
  }

  lemma Known42(i: int)
    requires MorphSizes() && 42 <= i < 48
    ensures 0 <= MorphChk()[i] < 49 && Known(i)
  {
  }

  lemma Known48(i: int)
    requires MorphSizes() && 48 <= i < 54
    ensures 0 <= MorphChk()[i] < 49 && Known(i)
  {
  }

  lemma Known54(i: int)
    requires MorphSizes() && 54 <= i < 57
    ensures 0 <= MorphChk()[i] < 49 && Known(i)
  {
  }

  lemma Known57(i: int)
    requires MorphSizes() && 57 <= i < 60
    ensures 0 <= MorphChk()[i] < 49 && Known(i)
  {
  }

  lemma Known60(i: int)
    requires MorphSizes() && 60 <= i < 63
    ensures 0 <= MorphChk()[i] < 49 && Known(i)
  {
  }

  lemma Known63(i: int)
    requires MorphSizes() && 63 <= i < 66
    ensures 0 <= MorphChk()[i] < 49 && Known(i)
  {
  }

  lemma Known66(i: int)
    requires MorphSizes() && 66 <= i < 72
    ensures 0 <= MorphChk()[i] < 49 && Known(i)
  {
  }

  lemma Known72(i: int)
    requires MorphSizes() && 72 <= i < 80
    ensures 0 <= MorphChk()[i] < 49 && Known(i)
  {
  }

  lemma Known80(i: int)
    requires MorphSizes() && 80 <= i < 90
    ensures 0 <= MorphChk()[i] < 49 && Known(i)
  {
  }

  lemma Known90(i: int)
    requires MorphSizes() && 90 <= i < 115
    ensures 0 <= MorphChk()[i] < 49 && Known(i)
  {
  }

  lemma Owned1(s: int, c: int)
    requires MorphSizes() && 1 < s < 20 && 1 <= c < 24 && Own(s, c) != 0
    ensures 0 <= MorphBase()[s] + c < 115 && MorphChk()[MorphBase()[s] + c] == s
  {
  }

  lemma Owned2(s: int, c: int)
    requires MorphSizes() && 20 <= s < 41 && 1 <= c < 24 && Own(s, c) != 0
    ensures 0 <= MorphBase()[s] + c < 115 && MorphChk()[MorphBase()[s] + c] == s
  {
  }

  lemma Templated(d: int, m: int)
    requires MorphSizes() && 42 <= d < 49 && 1 <= m < 12 && Template(d, m) != 41
    ensures 0 <= MorphBase()[d] + m < 115 && MorphChk()[MorphBase()[d] + m] == d
  {
  }

  lemma Linked(s: int)
    requires MorphSizes() && 1 <= s < 41 && s != 2 && s != 3
    ensures MorphDef()[s] == Link(s)
  {
  }

  lemma Metas(c: int)
    requires MorphSizes() && 1 <= c < 24
    ensures MorphMeta()[c] == Meta(c)
  {
  }

  lemma MovesFirst(x: byte)
    ensures Moves(1, 1, x) && Moves(2, 1, x) && Moves(3, 1, x) && Moves(4, 1, x) && Moves(6, 1, x)
  {
  }

  lemma MovesStartWord(s: int, x: byte)
    requires 4 <= s < 16
    ensures Moves(1, s, x)
  {
  }

  lemma MovesInWord(s: int, x: byte)
    requires 16 <= s < 41
    ensures Moves(1, s, x)
  {
  }

  lemma MovesEcho(s: int, x: byte)
    requires State(s) && s < 41
    ensures Moves(5, s, x) && Moves(7, s, x)
  {
  }

  lemma MovesStartMarked(s: int, x: byte)
    requires 4 <= s < 10
    ensures Moves(2, s, x)
  {
  }

  lemma MovesIntoMarked(s: int, x: byte)
    requires 10 <= s < 13
    ensures Moves(2, s, x)
  {
  }

  lemma MovesBehindMarked(s: int, x: byte)
    requires 13 <= s < 15
    ensures Moves(2, s, x)
  {
  }

  lemma MovesBeforeMarked(x: byte)
    ensures Moves(2, 15, x)
  {
  }

  lemma MovesInMarked(s: int, x: byte)
    requires 16 <= s < 28
    ensures Moves(2, s, x)
  {
  }

  lemma MovesEndMarked(s: int, x: byte)
    requires 28 <= s < 41
    ensures Moves(2, s, x)
  {
  }

  lemma MovesMarked(s: int, x: byte)
    requires 4 <= s < 41
    ensures Moves(2, s, x)
  {
    hide Moves;
    if s < 10 {
      MovesStartMarked(s, x);
    } else if s < 13 {
      MovesIntoMarked(s, x);
    } else if s < 15 {
      MovesBehindMarked(s, x);
    } else if s == 15 {
      MovesBeforeMarked(x);
    } else if s < 28 {
      MovesInMarked(s, x);
    } else {
      MovesEndMarked(s, x);
    }
  }

  lemma MovesStartCategory(s: int, x: byte)
    requires 4 <= s < 10
    ensures Moves(3, s, x)
  {
  }

  lemma MovesIntoCategory(s: int, x: byte)
    requires 10 <= s < 12
    ensures Moves(3, s, x)
  {
  }

  lemma MovesBeforeCategory(x: byte)
    ensures Moves(3, 12, x)
  {
  }

  lemma MovesBehindCategory(s: int, x: byte)
    requires 13 <= s < 16
    ensures Moves(3, s, x)
  {
  }

  lemma MovesInCategory(s: int, x: byte)
    requires 16 <= s < 28
    ensures Moves(3, s, x)
  {
  }

  lemma MovesEndCategory(s: int, x: byte)
    requires 28 <= s < 41
    ensures Moves(3, s, x)
  {
  }

  lemma MovesCategory(s: int, x: byte)
    requires 4 <= s < 41
    ensures Moves(3, s, x)
  {
    hide Moves;
    if s < 10 {
      MovesStartCategory(s, x);
    } else if s < 12 {
      MovesIntoCategory(s, x);
    } else if s == 12 {
      MovesBeforeCategory(x);
    } else if s < 16 {
      MovesBehindCategory(s, x);
    } else if s < 28 {
      MovesInCategory(s, x);
    } else {
      MovesEndCategory(s, x);
    }
  }

  lemma MovesStartTense(s: int, x: byte)
    requires 4 <= s < 10
    ensures Moves(4, s, x)
  {
  }

  lemma MovesIntoTense(s: int, x: byte)
    requires 10 <= s < 16
    ensures Moves(4, s, x)
  {
  }

  lemma MovesInTense(s: int, x: byte)
    requires 16 <= s < 28
    ensures Moves(4, s, x)
  {
  }

  lemma MovesEndTense(s: int, x: byte)
    requires 28 <= s < 41
    ensures Moves(4, s, x)
  {
  }

  lemma MovesTense(s: int, x: byte)
    requires 4 <= s < 41
    ensures Moves(4, s, x)
  {
    hide Moves;
    if s < 10 {
      MovesStartTense(s, x);
    } else if s < 16 {
      MovesIntoTense(s, x);
    } else if s < 28 {
      MovesInTense(s, x);
    } else {
      MovesEndTense(s, x);
    }
  }

  lemma MovesStartCase(s: int, x: byte)
    requires 4 <= s < 10
    ensures Moves(6, s, x)
  {
  }

  lemma MovesIntoCase(s: int, x: byte)
    requires 10 <= s < 13
    ensures Moves(6, s, x)
  {
  }

  lemma MovesBehindCase(s: int, x: byte)
    requires 13 <= s < 16
    ensures Moves(6, s, x)
  {
  }

  lemma MovesInCase(s: int, x: byte)
    requires 16 <= s < 22
    ensures Moves(6, s, x)
  {
  }

  lemma MovesFurtherCase(s: int, x: byte)
    requires 22 <= s < 28
    ensures Moves(6, s, x)
  {
  }

  lemma MovesLateCase(s: int, x: byte)
    requires 28 <= s < 38
    ensures Moves(6, s, x)
  {
  }

  lemma MovesEndCase(s: int, x: byte)
    requires 38 <= s < 41
    ensures Moves(6, s, x)
  {
  }

  lemma MovesCase(s: int, x: byte)
    requires 4 <= s < 41
    ensures Moves(6, s, x)
  {
    hide Moves;
    if s < 10 {
      MovesStartCase(s, x);
    } else if s < 13 {
      MovesIntoCase(s, x);
    } else if s < 16 {
      MovesBehindCase(s, x);
    } else if s < 22 {
      MovesInCase(s, x);
    } else if s < 28 {
      MovesFurtherCase(s, x);
    } else if s < 38 {
      MovesLateCase(s, x);
    } else {
      MovesEndCase(s, x);
    }
  }

  lemma AllMoves(k: int, s: int, x: byte)
    requires 1 <= k <= RULES && State(s) && s < 41
    ensures Moves(k, s, x)
  {
    hide Moves, Delta, Place;
    MovesEcho(s, x);
    if s == 1 {
      MovesFirst(x);
    } else {
      if s < 16 { MovesStartWord(s, x); } else { MovesInWord(s, x); }
      MovesMarked(s, x);
      MovesCategory(s, x);
      MovesTense(s, x);
      MovesCase(s, x);
    }
  }

  lemma AllKnown(i: int)
    requires MorphSizes() && 1 <= i < 115
    ensures 0 <= MorphChk()[i] < 49 && Known(i)
  {
    hide Known, MorphChk;
    if i < 24 { KnownFirst(i); }
    else if i < 27 { Known24(i); }
    else if i < 30 { Known27(i); }
    else if i < 33 { Known30(i); }
    else if i < 36 { Known33(i); }
    else if i < 42 { Known36(i); }
    else if i < 48 { Known42(i); }
    else if i < 54 { Known48(i); }
    else if i < 57 { Known54(i); }
    else if i < 60 { Known57(i); }
    else if i < 63 { Known60(i); }
    else if i < 66 { Known63(i); }
    else if i < 72 { Known66(i); }
    else if i < 80 { Known72(i); }
    else if i < 90 { Known80(i); }
    else { Known90(i); }
  }

  lemma AllOwned(s: int, c: int)
    requires MorphSizes() && State(s) && s < 41 && 1 <= c < 24 && Own(s, c) != 0
    ensures 0 <= MorphBase()[s] + c < 115 && MorphChk()[MorphBase()[s] + c] == s
  {
    hide Own, MorphChk, MorphBase;
    if s == 1 { MorphFirsts(c); } else if s < 20 { Owned1(s, c); } else { Owned2(s, c); }
  }

  lemma NextFromTemplate(d: int, m: int)
    requires MorphSizes() && In(MorphTables(), d, m) && 41 <= d < 49 && 1 <= m && (d > 41 ==> m < 12)
    ensures Next(MorphTables(), d, m) == Template(d, m)
  {
    hide Valid, MorphSizes, MorphAccept, MorphMeta, MorphBase, MorphDef, MorphNxt, MorphChk, Own;
    var t := MorphTables();
    if d == 41 {
      NextJams(t, m);
    } else {
      NextTerminates(t, d, m);
      MorphDefaults(d);
      var j := t.base[d] + m;
      if t.chk[j] == d {
        MorphBases(d);
        AllKnown(j);
      } else {
        if Template(d, m) != 41 { Templated(d, m); }
        MorphMetas(m);
        NextJams(t, t.meta[m]);
      }
    }
  }

  /** The compressed tables, followed through their default links, go where `Delta` says. */
  lemma NextIsDelta(s: int, c: int)
    requires MorphSizes() && In(MorphTables(), s, c) && State(s) && s < 41 && 1 <= c < 24
    ensures Next(MorphTables(), s, c) == Delta(s, c)
  {
    hide Valid, MorphSizes, MorphAccept, MorphMeta, MorphBase, MorphDef, MorphNxt, MorphChk, Own;
    var t := MorphTables();
    NextTerminates(t, s, c);
    MorphIsShaped();
    MorphBases(s);
    Linked(s);
    Metas(c);
    var i := t.base[s] + c;
    if t.chk[i] == s {
      AllKnown(i);
    } else {
      if Own(s, c) != 0 { AllOwned(s, c); }
      var d := Link(s);
      NextFromTemplate(d, if d >= t.templates then t.meta[c] else c);
    }
  }

  // ------------------------------------------------------------------------------------------
  // The tables recognise the rules
  // ------------------------------------------------------------------------------------------

  /** After any text the automaton's state stands for the place in each rule. */
  lemma {:induction false} RunKeepsPlace(k: int, w: seq<byte>)
    requires Valid(MorphTables()) && MorphSizes() && 1 <= k <= RULES
    ensures State(Run(MorphTables(), w)) && PlaceAfter(Rule(k), w) == Place(k, Run(MorphTables(), w))
    decreases |w|
  {
    hide Valid, MorphSizes, MorphAccept, MorphMeta, MorphBase, MorphDef, MorphNxt, MorphChk, Rule, Delta, Next, ClassOf;
    var t := MorphTables();
    if w != [] {
      var u, x := w[..|w| - 1], w[|w| - 1];
      RunKeepsPlace(k, u);
      var s := Run(t, u);
      ClassIs(x);
      MorphIsShaped();
      if s == t.jam {
        NextJams(t, Class(x));
      } else {
        AllMoves(k, s, x);
        NextIsDelta(s, Class(x));
      }
    }
  }

  lemma ClassIs(x: byte)
    requires Valid(MorphTables())
    ensures ClassOf(MorphTables(), x) == Class(x)
  {
    hide Valid;
  }

  /** The states at the end of a rule. */
  predicate Final(k: int, s: int) {
    if k == 1 then s == 10 || s == 19 else if k == 2 then s == 20 else if k == 3 then s == 31
    else if k == 4 then s == 36
    else if k == 5 then s == 5 else if k == 6 then s == 40 else 4 <= s <= 10
  }

  lemma Finals(k: int, s: int)
    requires 1 <= k <= RULES && State(s)
    ensures AllMany(Rule(k), Place(k, s)) <==> Final(k, s)
  {
    var r, p := Rule(k), Place(k, s);
    if k == 1 {
      assert r[0].Once? && r[1].Many?;
    } else {
      assert r[|r| - 1].Once?;
    }
  }

  lemma AcceptIsFinal(s: int)
    requires MorphSizes() && State(s)
    ensures var a := MorphAccept()[s];
      && 0 <= a <= RULES && (a != 0 ==> Final(a, s))
      && forall j :: 1 <= j <= RULES && (a == 0 || j < a) ==> !Final(j, s)
  {
  }

  /** The tables accept a text by the first of the rules that describes the whole of it, and no other text. */
  lemma AcceptsIsFirstRule(w: seq<byte>)
    ensures Valid(MorphTables()) && Accepts(MorphTables(), w) == FirstRule(w)
  {
    hide Valid, MorphSizes, MorphAccept, MorphMeta, MorphBase, MorphDef, MorphNxt, MorphChk, Rule, Place, Fits, Run,
      Final,
         FirstFrom;
    MorphValid();
    MorphMeasured();
    var s := Run(MorphTables(), w);
    forall k | 1 <= k <= RULES ensures State(s) && (Fits(Rule(k), w) <==> Final(k, s)) {
      RunKeepsPlace(k, w);
      RulesDefinite(k);
      FitsByPlace(Rule(k), w);
      Finals(k, s);
    }
    RunKeepsPlace(1, w);
    AcceptIsFinal(s);
  }

  /** The first `n` characters are the longest beginning that a rule describes, and `k` is the first such rule. */
  ghost predicate IsToken(text: seq<byte>, n: nat, k: int) {
    && 1 <= n <= |text| && k == FirstRule(text[..n]) && k != 0
    && forall m :: n < m <= |text| ==> FirstRule(text[..m]) == 0
  }

  /** A text cut into tokens as the rules prescribe. */
  ghost predicate Tokenized(text: seq<byte>, ms: seq<Match>)
    decreases |ms|
  {
    if ms == [] then text == []
    else
      var n := |ms[0].text|;
      IsToken(text, n, ms[0].rule) && ms[0].text == text[..n] && Tokenized(text[n..], ms[1..])
  }

  lemma TokenIsLongest(text: seq<byte>, n: nat, k: int)
    requires Valid(MorphTables()) && text != []
    ensures IsToken(text, n, k) <==>
      n == Longest(MorphTables(), text) && k == Accepts(MorphTables(), text[..Longest(MorphTables(), text)])
  {
    hide Valid, Accepts, FirstRule, Longest;
    var t := MorphTables();
    LongestIs(t, text);
    forall m | 0 <= m <= |text| ensures Accepts(t, text[..m]) == FirstRule(text[..m]) {
      AcceptsIsFirstRule(text[..m]);
    }
    if IsToken(text, n, k) {
      assert IsLongest(t, text, n);
    }
  }

  /** The matches of the generated tables are the one way to cut a text into tokens as the rules prescribe. */
  lemma {:induction false} MatchesFollowRules(text: seq<byte>, ms: seq<Match>)
    ensures Valid(MorphTables()) && (Tokenized(text, ms) <==> ms == Matches(MorphTables(), text))
    decreases |text|
  {
    hide Valid, Longest, Accepts, IsToken;
    MorphValid();
    var t := MorphTables();
    if text == [] {
      if ms != [] { NoEmptyToken(ms[0]); }
    } else {
      MatchesStep(t, text);
      hide Matches;
      var n := Longest(t, text);
      MatchesFollowRules(text[n..], Matches(t, text[n..]));
      if ms != [] {
        TokenIsLongest(text, |ms[0].text|, ms[0].rule);
        if |ms[0].text| == n { MatchesFollowRules(text[n..], ms[1..]); }
      }
    }
  }

  lemma NoEmptyToken(m: Match)
    ensures !IsToken([], |m.text|, m.rule)
  {
  }
}
