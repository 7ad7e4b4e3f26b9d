/** The scanner that marks capital letters: its tables match one character at a time, which gives its
    output in closed form. */
module LetterScanner {
  import opened Bytes
  import opened FlexTables
  import opened LongestMatch

  /** What the action of a match writes: rules 1 to 26 mark a letter, the default rule echoes. */
  function ActionOutput(m: Match): seq<byte> {
    if 1 <= m.rule <= 26 then [122, 122, 122, 96 + m.rule, 113, 113, 113] else m.text
  }

  function Output(ms: seq<Match>): seq<byte> {
    if ms == [] then [] else ActionOutput(ms[0]) + Output(ms[1..])
  }

  /** A capital letter becomes zzz, its lower case, qqq; every other character stays. */
  function Mark(x: byte): seq<byte> {
    if 'A' as int <= x <= 'Z' as int
    then ['z' as int, 'z' as int, 'z' as int, x - 'A' as int + 'a' as int, 'q' as int, 'q' as int, 'q' as int]
    else [x]
  }

  function Marked(text: seq<byte>): seq<byte> {
    if text == [] then [] else Mark(text[0]) + Marked(text[1..])
  }

  lemma LetterStates(s: int)
    requires LetterSizes() && 4 <= s <= 30
    ensures LetterBase()[s] == 29 && LetterAccept()[s] == if s == 4 then 27 else s - 4
  {
  }

  lemma LetterChecks(c: int)
    requires LetterSizes() && 1 <= c < 28
    ensures LetterBase()[1] == 0 && LetterChk()[c] == 1
  {
  }

  lemma LetterFirstMoves(c: int)
    requires LetterSizes() && 1 <= c < 14
    ensures LetterNxt()[c] == c + 3
  {
  }

  lemma LetterLastMoves(c: int)
    requires LetterSizes() && 14 <= c < 28
    ensures LetterNxt()[c] == c + 3
  {
  }

  lemma OneCharacter(x: byte)
    requires Valid(LetterTables())
    ensures var t := LetterTables();
      && Run(t, [x]) == (if 65 <= x <= 90 then x - 60 else 4) && t.base[Run(t, [x])] == t.jamBase
      && Accepts(t, [x]) == if 65 <= x <= 90 then x - 64 else 27
  {
    hide LetterAccept, LetterMeta, LetterBase, LetterDef, LetterNxt, LetterChk, Valid, LetterSizes;
    LetterMeasured();
    LetterIsShaped();
    var t := LetterTables();
    var c := ClassOf(t, x);
    assert c == if 65 <= x <= 90 then x - 63 else 1 by { assert LetterEc(x) == Ec(t, x); }
    LetterChecks(c);
    if c < 14 { LetterFirstMoves(c); } else { LetterLastMoves(c); }
    LetterStates(c + 3);
    assert [x][..0] == [];
    assert Run(t, []) == START;
    RunStep(t, [x], 0);
    assert [x][..1] == [x];
    assert Next(t, START, c) == t.nxt[c];
  }

  lemma LetterLongest(text: seq<byte>)
    requires Valid(LetterTables()) && text != []
    ensures Longest(LetterTables(), text) == 1
  {
    var t := LetterTables();
    hide Valid, LetterTables, LongestUpTo;
    assert text[..1] == [text[0]];
    OneCharacter(text[0]);
    LongestIs(t, text);
    forall m | 1 < m <= |text| ensures Accepts(t, text[..m]) == 0 {
      StopsBeyond(t, text, 1, m);
    }
    SingleAccepted(t, text);
    assert IsLongest(t, text, 1);
  }

  /** The output over a whole input is the input with every capital letter marked. */
  lemma {:induction false} LetterOutput(text: seq<byte>)
    requires Valid(LetterTables())
    ensures Output(Matches(LetterTables(), text)) == Marked(text)
    decreases |text|
  {
    var t := LetterTables();
    hide Valid, LetterTables, Longest, Accepts;
    if text == [] {
      assert Matches(t, text) == [];
    } else {
      MatchesStep(t, text);
      LetterLongest(text);
      OneCharacter(text[0]);
      hide Matches;
      assert text[..1] == [text[0]];
      LetterOutput(text[1..]);
      var ms := Matches(t, text);
      assert ms[1..] == Matches(t, text[1..]);
      assert ActionOutput(ms[0]) == Mark(text[0]);
    }
  }
}
