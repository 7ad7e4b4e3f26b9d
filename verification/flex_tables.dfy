/** The compressed tables of the two generated scanners, and what both sets of tables have in common. */
module FlexTables {

  import opened Bytes

  datatype Scanner = Morph | Letter

  /** The arrays of one generated scanner, and the constants its matching code compares them with:
      states from `templates` on are templates, reaching `jamBase` ends the matching loop, `jam` is
      the state without continuation, `eob` the one entered on the end-of-buffer character, and
      `endOfBuffer` its action number. */
  datatype Tables = Tables(
    scanner: Scanner,
    accept: seq<int>, meta: seq<int>, base: seq<int>, def: seq<int>, nxt: seq<int>, chk: seq<int>,
    templates: int, jamBase: int, jam: int, eob: int, endOfBuffer: int)

  const START := 1

  // The scanner for morphological analyses.

  function MorphAccept(): seq<int> {
    [0, 0, 0, 8, 7, 5, 7, 7, 7, 7, 1, 0, 0, 0, 0, 0, 0, 0, 0, 1, 2, 0, 0, 0] +
    [0, 0, 0, 0, 0, 0, 0, 3, 0, 0, 0, 0, 4, 0, 0, 0, 6, 0]
  }

  function MorphMeta(): seq<int> {
    [0, 1, 1, 2, 3, 1, 4, 5, 6, 7, 1, 8, 9, 1, 10, 11, 11, 11, 11, 11, 11, 11, 11, 11]
  }

  function MorphBase(): seq<int> {
    [0, 0, 0, 87, 91, 91, 75, 80, 21, 8, 0, 70, 63, 75, 70, 23, 57, 56, 55, 0, 91, 62, 40, 41] +
    [42, 47, 34, 43, 40, 31, 0, 91, 31, 21, 25, 18, 91, 23, 0, 18, 91, 91, 33, 43, 53, 62, 65, 72] +
    [79]
  }

  function MorphDef(): seq<int> {
    [0, 41, 1, 41, 41, 41, 42, 41, 43, 41, 44, 42, 41, 45, 41, 43, 41, 41, 41, 44, 41, 45, 41, 41] +
    [41, 41, 41, 41, 46, 41, 47, 41, 46, 41, 47, 41, 41, 41, 48, 48, 41, 0, 41, 41, 41, 41, 41, 41] +
    [41]
  }

  function MorphNxt(): seq<int> {
    [0, 4, 5, 6, 4, 4, 7, 8, 8, 8, 4, 9, 4, 10, 4, 8, 8, 8, 8, 8, 8, 8, 8, 8] +
    [11, 16, 11, 14, 17, 14, 40, 18, 12, 38, 12, 11, 37, 36, 11, 11, 11, 11, 35, 31, 11, 15, 33, 15] +
    [15, 15, 15, 15, 31, 30, 15, 19, 29, 28, 19, 19, 19, 27, 26, 25, 19, 21, 20, 21, 21, 21, 24, 23] +
    [22, 21, 32, 13, 32, 34, 34, 20, 16, 12, 34, 34, 39, 13, 12, 41, 41, 39, 39, 3, 41, 41, 41, 41] +
    [41, 41, 41, 41, 41, 41, 41, 41, 41, 41, 41, 41, 41, 41, 41, 41, 41, 41, 41]
  }

  function MorphChk(): seq<int> {
    [0, 1, 1, 1, 1, 1, 1, 1, 1, 1, 1, 1, 1, 1, 1, 1, 1, 1, 1, 1, 1, 1, 1, 1] +
    [8, 9, 15, 8, 9, 15, 39, 9, 8, 37, 15, 42, 35, 34, 42, 42, 42, 42, 33, 32, 42, 43, 29, 43] +
    [43, 43, 43, 43, 28, 27, 43, 44, 26, 25, 44, 44, 44, 24, 23, 22, 44, 45, 21, 45, 45, 45, 18, 17] +
    [16, 45, 46, 14, 46, 47, 47, 13, 12, 11, 47, 47, 48, 7, 6, 3, 0, 48, 48, 41, 41, 41, 41, 41] +
    [41, 41, 41, 41, 41, 41, 41, 41, 41, 41, 41, 41, 41, 41, 41, 41, 41, 41, 41]
  }

  /** yy_ec of the morphological scanner, entry by entry. */
  function MorphEc(x: byte): int {
    if x == 0 then 0
    else if x == 10 then 2
    else if x == 32 then 3
    else if x == 36 then 4
    else if x == 42 then 5
    else if x == 47 then 6
    else if x == 48 || 65 <= x <= 90 then 7
    else if x == 49 then 8
    else if 50 <= x <= 57 then 9
    else if x == 58 then 10
    else if x == 60 then 11
    else if x == 62 then 12
    else if x == 94 then 13
    else if x == 95 then 14
    else if x == 97 then 15
    else if x == 99 then 17
    else if x == 103 then 18
    else if x == 109 then 19
    else if x == 112 then 20
    else if x == 114 then 21
    else if x == 115 then 22
    else if x == 116 then 23
    else if 97 <= x <= 122 then 16
    else 1
  }

  function MorphTables(): Tables {
    Tables(Morph, MorphAccept(), MorphMeta(), MorphBase(), MorphDef(), MorphNxt(), MorphChk(), 42, 91, 41, 3, 8)
  }

  // The scanner that marks capital letters.

  function LetterAccept(): seq<int> {
    [0, 0, 0, 28, 27, 1, 2, 3, 4, 5, 6, 7, 8, 9, 10, 11, 12, 13, 14, 15, 16, 17, 18, 19] +
    [20, 21, 22, 23, 24, 25, 26, 0]
  }

  function LetterMeta(): seq<int> {
    [0, 1, 1, 1, 1, 1, 1, 1, 1, 1, 1, 1, 1, 1, 1, 1, 1, 1, 1, 1, 1, 1, 1, 1] +
    [1, 1, 1, 1]
  }

  function LetterBase(): seq<int> {
    [0, 0, 0, 28, 29, 29, 29, 29, 29, 29, 29, 29, 29, 29, 29, 29, 29, 29, 29, 29, 29, 29, 29, 29] +
    [29, 29, 29, 29, 29, 29, 29, 29]
  }

  function LetterDef(): seq<int> {
    [0, 31, 1, 31, 31, 31, 31, 31, 31, 31, 31, 31, 31, 31, 31, 31, 31, 31, 31, 31, 31, 31, 31, 31] +
    [31, 31, 31, 31, 31, 31, 31, 0]
  }

  function LetterNxt(): seq<int> {
    [0, 4, 5, 6, 7, 8, 9, 10, 11, 12, 13, 14, 15, 16, 17, 18, 19, 20, 21, 22, 23, 24, 25, 26] +
    [27, 28, 29, 30, 31, 3, 31, 31, 31, 31, 31, 31, 31, 31, 31, 31, 31, 31, 31, 31, 31, 31, 31, 31] +
    [31, 31, 31, 31, 31, 31, 31, 31, 31]
  }

  function LetterChk(): seq<int> {
    [0, 1, 1, 1, 1, 1, 1, 1, 1, 1, 1, 1, 1, 1, 1, 1, 1, 1, 1, 1, 1, 1, 1, 1] +
    [1, 1, 1, 1, 3, 31, 31, 31, 31, 31, 31, 31, 31, 31, 31, 31, 31, 31, 31, 31, 31, 31, 31, 31] +
    [31, 31, 31, 31, 31, 31, 31, 31, 31]
  }

  /** yy_ec of the letter scanner, entry by entry. */
  function LetterEc(x: byte): int {
    if x == 0 then 0 else if 65 <= x <= 90 then x - 63 else 1
  }

  function LetterTables(): Tables {
    Tables(Letter, LetterAccept(), LetterMeta(), LetterBase(), LetterDef(), LetterNxt(), LetterChk(), 32, 29, 31, 3, 28)
  }

  function Ec(t: Tables, x: byte): int { if t.scanner.Morph? then MorphEc(x) else LetterEc(x) }

  // ------------------------------------------------------------------------------------------
  // What the matching code relies on
  // ------------------------------------------------------------------------------------------

  /** How many default links can be followed from a state. */
  function Links(t: Tables, s: int): nat {
    if s == t.jam then 0 else if s >= t.templates then 1 else if s == 2 then 3 else 2
  }

  ghost predicate Shape(t: Tables) {
    && |t.meta| >= 1 && |t.base| == |t.def| && |t.nxt| == |t.chk|
    && 3 <= t.eob < t.jam < t.templates <= |t.base| && t.templates == t.jam + 1 == |t.accept|
    && 0 <= t.jamBase && t.jamBase + |t.meta| <= |t.chk|
  }

  /** The states the matching code treats specially. */
  ghost predicate Landmarks(t: Tables)
    requires Shape(t)
  {
    && t.base[t.jam] == t.jamBase && t.base[t.eob] != t.jamBase
    && t.def[t.eob] == t.jam
    && t.accept[t.jam] == 0 && t.accept[START] == 0
    && t.accept[t.eob] == t.endOfBuffer > 0
  }

  ghost predicate GoodBase(t: Tables, s: int)
    requires Shape(t) && 1 <= s < |t.base|
  {
    && 0 <= t.base[s] && t.base[s] + |t.meta| <= |t.chk|
    && (s != t.jam ==> (t.chk[t.base[s]] == s <==> s == t.eob))
  }

  ghost predicate GoodDefault(t: Tables, s: int)
    requires Shape(t) && 1 <= s < |t.base|
  {
    && (s != t.jam ==> 1 <= t.def[s] < |t.base| && t.def[s] != t.eob && Links(t, t.def[s]) < Links(t, s))
    && (s < t.templates && t.base[s] == t.jamBase && s != t.jam ==> t.def[s] == t.jam)
  }

  ghost predicate GoodAccept(t: Tables, s: int)
    requires Shape(t) && 1 <= s < t.templates
  {
    t.accept[s] >= 0 && (t.accept[s] == t.endOfBuffer <==> s == t.eob)
  }

  ghost predicate GoodMeta(t: Tables, c: int)
    requires Shape(t) && 0 <= c < |t.meta|
  {
    0 <= t.meta[c] < |t.meta| && (t.meta[c] == 0 <==> c == 0)
  }

  /** The row of the jam state ends every chain of default links. */
  ghost predicate GoodJam(t: Tables, c: int)
    requires Shape(t) && 0 <= c < |t.meta|
  {
    t.chk[t.jamBase + c] == t.jam && t.nxt[t.jamBase + c] == (if c == 0 then t.eob else t.jam)
  }

  /** The end-of-buffer state jams on every class. */
  ghost predicate GoodEnd(t: Tables, c: int)
    requires Shape(t) && 0 <= c < |t.meta| && GoodBase(t, t.eob)
  {
    t.chk[t.base[t.eob] + c] == t.eob ==> t.nxt[t.base[t.eob] + c] == t.jam
  }

  /** From the start state every character leads to an accepting state. */
  ghost predicate GoodFirst(t: Tables, c: int)
    requires Shape(t) && 1 <= c < |t.meta| && GoodBase(t, START)
  {
    var i := t.base[START] + c;
    t.chk[i] == START && START <= t.nxt[i] < |t.accept| && t.accept[t.nxt[i]] != 0
  }

  ghost predicate GoodEntry(t: Tables, i: int)
    requires Shape(t) && 1 <= i < |t.nxt|
  {
    i != t.jamBase ==> 1 <= t.nxt[i] <= t.jam && t.nxt[i] != t.eob
  }

  ghost predicate GoodCharacter(t: Tables, x: byte)
    requires Shape(t)
  {
    0 <= Ec(t, x) < |t.meta| && (Ec(t, x) == 0 <==> x == 0)
  }

  ghost predicate Valid(t: Tables) {
    && Shape(t) && Landmarks(t)
    && (forall s :: 1 <= s < |t.base| ==> GoodBase(t, s) && GoodDefault(t, s))
    && (forall s :: 1 <= s < t.templates ==> GoodAccept(t, s))
    && (forall c :: 0 <= c < |t.meta| ==> GoodMeta(t, c) && GoodJam(t, c) && GoodEnd(t, c))
    && (forall c :: 1 <= c < |t.meta| ==> GoodFirst(t, c))
    && (forall i :: 1 <= i < |t.nxt| ==> GoodEntry(t, i))
    && (forall x: byte :: GoodCharacter(t, x))
  }

  ghost predicate MorphSizes() {
    && |MorphAccept()| == 42 && |MorphMeta()| == 24 && |MorphBase()| == |MorphDef()| == 49
    && |MorphNxt()| == |MorphChk()| == 115
  }

  lemma MorphNxtMeasured()
    ensures |MorphNxt()| == 115
  {
  }

  lemma MorphChkMeasured()
    ensures |MorphChk()| == 115
  {
  }

  lemma MorphStatesMeasured()
    ensures |MorphAccept()| == 42 && |MorphMeta()| == 24 && |MorphBase()| == |MorphDef()| == 49
  {
  }

  lemma MorphMeasured()
    ensures MorphSizes()
  {
    hide MorphAccept, MorphMeta, MorphBase, MorphDef, MorphNxt, MorphChk;
    MorphNxtMeasured();
    MorphChkMeasured();
    MorphStatesMeasured();
  }

  lemma MorphBaseRange(s: int)
    requires MorphSizes() && 1 <= s < 49
    ensures 0 <= MorphBase()[s] <= 91
  {
  }

  lemma MorphEndBase()
    requires MorphSizes()
    ensures MorphBase()[3] == 87 && MorphChk()[87] == 3
  {
  }

  lemma MorphFirstBases(s: int)
    requires MorphSizes() && 1 <= s < 8 && s != 3 && 0 <= MorphBase()[s] <= 91
    ensures MorphChk()[MorphBase()[s]] != s
  {
  }

  lemma MorphEarlyBases(s: int)
    requires MorphSizes() && 8 <= s < 16 && 0 <= MorphBase()[s] <= 91
    ensures MorphChk()[MorphBase()[s]] != s
  {
  }

  lemma MorphMiddleBases(s: int)
    requires MorphSizes() && 16 <= s < 28 && 0 <= MorphBase()[s] <= 91
    ensures MorphChk()[MorphBase()[s]] != s
  {
  }

  lemma MorphLateBases(s: int)
    requires MorphSizes() && 28 <= s < 38 && 0 <= MorphBase()[s] <= 91
    ensures MorphChk()[MorphBase()[s]] != s
  {
  }

  lemma MorphLastBases(s: int)
    requires MorphSizes() && 38 <= s < 49 && s != 41 && 0 <= MorphBase()[s] <= 91
    ensures MorphChk()[MorphBase()[s]] != s
  {
  }

  lemma MorphBases(s: int)
    requires MorphSizes() && 1 <= s < 49
    ensures 0 <= MorphBase()[s] <= 91
    ensures s != 41 ==> (MorphChk()[MorphBase()[s]] == s <==> s == 3)
  {
    hide MorphBase, MorphChk;
    MorphBaseRange(s);
    if s == 3 {
      MorphEndBase();
    } else if s < 8 {
      MorphFirstBases(s);
    } else if s < 16 {
      MorphEarlyBases(s);
    } else if s < 28 {
      MorphMiddleBases(s);
    } else if s < 38 {
      MorphLateBases(s);
    } else if s != 41 {
      MorphLastBases(s);
    }
  }

  lemma MorphDefaults(s: int)
    requires MorphSizes() && 1 <= s < 49 && s != 41
    ensures var d := MorphDef()[s];
      1 <= d < 49 && d != 3 && (s == 2 || d == 41 || d >= 42) && (s == 2 ==> d != 2) && (s >= 42 ==> d == 41)
  {
  }

  lemma MorphStops(s: int)
    requires MorphSizes() && 1 <= s < 41 && MorphBase()[s] == 91
    ensures MorphDef()[s] == 41
  {
  }

  lemma MorphAccepts(s: int)
    requires MorphSizes() && 1 <= s < 42
    ensures MorphAccept()[s] >= 0 && (MorphAccept()[s] == 8 <==> s == 3)
  {
  }

  lemma MorphMetas(c: int)
    requires MorphSizes() && 0 <= c < 24
    ensures 0 <= MorphMeta()[c] < 24 && (MorphMeta()[c] == 0 <==> c == 0)
  {
  }

  lemma MorphJams(c: int)
    requires MorphSizes() && 0 <= c < 24
    ensures MorphChk()[91 + c] == 41 && MorphNxt()[91 + c] == (if c == 0 then 3 else 41)
  {
  }

  lemma MorphEnds(c: int)
    requires MorphSizes() && 0 <= c < 24
    ensures MorphBase()[3] == 87 && (MorphChk()[87 + c] == 3 ==> MorphNxt()[87 + c] == 41)
  {
  }

  lemma MorphFirsts(c: int)
    requires MorphSizes() && 1 <= c < 24
    ensures MorphBase()[1] == 0 && MorphChk()[c] == 1 && 4 <= MorphNxt()[c] < 11
  {
  }

  lemma MorphSingles(s: int)
    requires MorphSizes() && 4 <= s < 11
    ensures MorphAccept()[s] != 0
  {
  }

  lemma MorphFirstEntries(i: int)
    requires MorphSizes() && 1 <= i < 30
    ensures 4 <= MorphNxt()[i] <= 41
  {
  }

  lemma MorphEarlyEntries(i: int)
    requires MorphSizes() && 30 <= i < 60
    ensures 4 <= MorphNxt()[i] <= 41
  {
  }

  lemma MorphEntries(i: int)
    requires MorphSizes() && 60 <= i < 115 && i != 91
    ensures 4 <= MorphNxt()[i] <= 41
  {
  }

  lemma MorphLandmarks()
    requires MorphSizes()
    ensures MorphBase()[41] == 91 && MorphBase()[3] != 91 && MorphDef()[3] == 41
    ensures MorphAccept()[41] == 0 && MorphAccept()[1] == 0 && MorphAccept()[3] == 8
  {
  }

  /** The arrays of the morphological scanner meet all that the matching code relies on. */
  lemma MorphValid()
    ensures Valid(MorphTables())
  {
    hide MorphSizes, MorphAccept, MorphMeta, MorphBase, MorphDef, MorphNxt, MorphChk;
    MorphMeasured();
    MorphIsShaped();
    var t := MorphTables();
    MorphLandmarks();
    forall s | 1 <= s < |t.base| ensures GoodBase(t, s) && GoodDefault(t, s) {
      MorphBases(s);
      if s != t.jam { MorphDefaults(s); }
      if s < t.jam && t.base[s] == t.jamBase { MorphStops(s); }
    }
    forall s | 1 <= s < t.templates ensures GoodAccept(t, s) {
      MorphAccepts(s);
    }
    forall c | 0 <= c < |t.meta| ensures GoodMeta(t, c) && GoodJam(t, c) && GoodEnd(t, c) {
      MorphMetas(c);
      MorphJams(c);
      MorphEnds(c);
    }
    forall c | 1 <= c < |t.meta| ensures GoodFirst(t, c) {
      MorphFirsts(c);
      MorphSingles(t.nxt[c]);
    }
    forall i | 1 <= i < |t.nxt| ensures GoodEntry(t, i) {
      if i < 30 { MorphFirstEntries(i); } else if i < 60 { MorphEarlyEntries(i); }
        else if i != t.jamBase { MorphEntries(i); }
    }
  }

  lemma MorphIsShaped()
    requires MorphSizes()
    ensures Shape(MorphTables()) && |MorphTables().base| == 49 && |MorphTables().meta| == 24
    ensures |MorphTables().nxt| == 115
  {
    hide MorphAccept, MorphMeta, MorphBase, MorphDef, MorphNxt, MorphChk;
  }

  ghost predicate LetterSizes() {
    && |LetterAccept()| == 32 && |LetterMeta()| == 28 && |LetterBase()| == |LetterDef()| == 32
    && |LetterNxt()| == |LetterChk()| == 57
  }

  lemma LetterMeasured()
    ensures LetterSizes()
  {
  }

  lemma LetterBases(s: int)
    requires LetterSizes() && 1 <= s < 32
    ensures 0 <= LetterBase()[s] <= 29
    ensures s != 31 ==> (LetterChk()[LetterBase()[s]] == s <==> s == 3)
  {
  }

  lemma LetterDefaults(s: int)
    requires LetterSizes() && 1 <= s < 32 && s != 31
    ensures var d := LetterDef()[s];
      1 <= d < 32 && d != 3 && (s == 2 || d == 31 || d >= 32) && (s == 2 ==> d != 2) && (s >= 32 ==> d == 31)
  {
  }

  lemma LetterStops(s: int)
    requires LetterSizes() && 1 <= s < 31 && LetterBase()[s] == 29
    ensures LetterDef()[s] == 31
  {
  }

  lemma LetterAccepts(s: int)
    requires LetterSizes() && 1 <= s < 32
    ensures LetterAccept()[s] >= 0 && (LetterAccept()[s] == 28 <==> s == 3)
  {
  }

  lemma LetterMetas(c: int)
    requires LetterSizes() && 0 <= c < 28
    ensures 0 <= LetterMeta()[c] < 28 && (LetterMeta()[c] == 0 <==> c == 0)
  {
  }

  lemma LetterJams(c: int)
    requires LetterSizes() && 0 <= c < 28
    ensures LetterChk()[29 + c] == 31 && LetterNxt()[29 + c] == (if c == 0 then 3 else 31)
  {
  }

  lemma LetterEnds(c: int)
    requires LetterSizes() && 0 <= c < 28
    ensures LetterBase()[3] == 28 && (LetterChk()[28 + c] == 3 ==> LetterNxt()[28 + c] == 31)
  {
  }

  lemma LetterFirsts(c: int)
    requires LetterSizes() && 1 <= c < 28
    ensures LetterBase()[1] == 0 && LetterChk()[c] == 1 && 4 <= LetterNxt()[c] < 31
  {
  }

  lemma LetterSingles(s: int)
    requires LetterSizes() && 4 <= s < 31
    ensures LetterAccept()[s] != 0
  {
  }

  lemma LetterEntries(i: int)
    requires LetterSizes() && 1 <= i < 57 && i != 29
    ensures 4 <= LetterNxt()[i] <= 31
  {
  }

  lemma LetterLandmarks()
    requires LetterSizes()
    ensures LetterBase()[31] == 29 && LetterBase()[3] != 29 && LetterDef()[3] == 31
    ensures LetterAccept()[31] == 0 && LetterAccept()[1] == 0 && LetterAccept()[3] == 28
  {
  }

  /** The arrays of the letter scanner meet all that the matching code relies on. */
  lemma LetterValid()
    ensures Valid(LetterTables())
  {
    hide LetterSizes, LetterAccept, LetterMeta, LetterBase, LetterDef, LetterNxt, LetterChk;
    LetterMeasured();
    LetterIsShaped();
    var t := LetterTables();
    LetterLandmarks();
    forall s | 1 <= s < |t.base| ensures GoodBase(t, s) && GoodDefault(t, s) {
      LetterBases(s);
      if s != t.jam { LetterDefaults(s); }
      if s < t.jam && t.base[s] == t.jamBase { LetterStops(s); }
    }
    forall s | 1 <= s < t.templates ensures GoodAccept(t, s) {
      LetterAccepts(s);
    }
    forall c | 0 <= c < |t.meta| ensures GoodMeta(t, c) && GoodJam(t, c) && GoodEnd(t, c) {
      LetterMetas(c);
      LetterJams(c);
      LetterEnds(c);
    }
    forall c | 1 <= c < |t.meta| ensures GoodFirst(t, c) {
      LetterFirsts(c);
      LetterSingles(t.nxt[c]);
    }
    forall i | 1 <= i < |t.nxt| ensures GoodEntry(t, i) {
      if i != t.jamBase { LetterEntries(i); }
    }
  }

  lemma LetterIsShaped()
    requires LetterSizes()
    ensures Shape(LetterTables()) && |LetterTables().base| == 32 && |LetterTables().meta| == 28
    ensures |LetterTables().nxt| == 57
  {
    hide LetterAccept, LetterMeta, LetterBase, LetterDef, LetterNxt, LetterChk;
  }
}
