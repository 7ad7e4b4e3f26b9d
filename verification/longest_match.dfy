/** The automaton the compressed tables stand for, and longest-match tokenization by it. */
module LongestMatch {
  import opened Bytes
  import opened FlexTables

  /** A state and a character class that mean something to the tables. */
  ghost predicate In(t: Tables, s: int, c: int) {
    Valid(t) && 1 <= s < |t.base| && 0 <= c < |t.meta|
  }

  /** Follows default links until the entry of (s, c) belongs to the state. */
  ghost function Next(t: Tables, s: int, c: int): int
    requires In(t, s, c)
    decreases Links(t, s)
  {
    NextTerminates(t, s, c);
    if t.chk[t.base[s] + c] == s then t.nxt[t.base[s] + c]
    else Next(t, t.def[s], if t.def[s] >= t.templates then t.meta[c] else c)
  }

  /** Default-chain stepping ends: every link leads strictly closer to the jam state. */
  lemma NextTerminates(t: Tables, s: int, c: int)
    requires In(t, s, c)
    ensures 0 <= t.base[s] + c < |t.chk| == |t.nxt|
    ensures t.chk[t.base[s] + c] != s ==>
      && s != t.jam && 1 <= t.def[s] < |t.base| && t.def[s] != t.eob && Links(t, t.def[s]) < Links(t, s)
      && 0 <= t.meta[c] < |t.meta| && (t.meta[c] == 0 <==> c == 0)
  {
    assert GoodBase(t, s) && GoodDefault(t, s) && GoodMeta(t, c) && GoodJam(t, c);
  }

  /** Class 0, the end-of-buffer character: every state but one goes to the end-of-buffer state. */
  lemma {:induction false} NextAtEnd(t: Tables, s: int)
    requires In(t, s, 0) && s != t.eob
    ensures Next(t, s, 0) == t.eob
    decreases Links(t, s)
  {
    assert GoodBase(t, s) && GoodJam(t, 0);
    NextTerminates(t, s, 0);
    if s != t.jam {
      NextAtEnd(t, t.def[s]);
    }
  }

  lemma NextJams(t: Tables, c: int)
    requires In(t, t.jam, c)
    ensures Next(t, t.jam, c) == if c == 0 then t.eob else t.jam
  {
    assert GoodJam(t, c);
  }

  /** From the end-of-buffer state everything jams. */
  lemma NextAfterEnd(t: Tables, c: int)
    requires In(t, t.eob, c)
    ensures Next(t, t.eob, c) == t.jam
  {
    assert GoodBase(t, t.eob) && GoodEnd(t, c) && GoodDefault(t, t.eob);
    if c != 0 { NextJams(t, c); }
  }

  lemma {:induction false} NextReal(t: Tables, s: int, c: int)
    requires In(t, s, c) && c != 0
    ensures 1 <= Next(t, s, c) <= t.jam && Next(t, s, c) != t.eob
    decreases Links(t, s)
  {
    NextTerminates(t, s, c);
    var i := t.base[s] + c;
    if t.chk[i] == s {
      assert GoodBase(t, s) && GoodEntry(t, i) && GoodJam(t, 0) && GoodJam(t, c);
    } else {
      NextReal(t, t.def[s], if t.def[s] >= t.templates then t.meta[c] else c);
    }
  }

  /** States that end the matching loop have no continuation. */
  lemma NextStops(t: Tables, s: int, c: int)
    requires In(t, s, c) && c != 0 && s < t.templates && t.base[s] == t.jamBase
    ensures Next(t, s, c) == t.jam
  {
    assert GoodDefault(t, s) && GoodJam(t, c);
    NextTerminates(t, s, c);
    NextJams(t, c);
  }

  lemma NextFirst(t: Tables, c: int)
    requires In(t, START, c) && c != 0
    ensures START <= Next(t, START, c) <= t.jam && t.accept[Next(t, START, c)] != 0
  {
    NextReal(t, START, c);
    assert GoodFirst(t, c);
  }

  // ------------------------------------------------------------------------------------------
  // Runs over text
  // ------------------------------------------------------------------------------------------

  /** The class of a character of the input; a NUL in the input counts as an ordinary character. */
  ghost function ClassOf(t: Tables, x: byte): (c: int)
    requires Valid(t)
    ensures 1 <= c < |t.meta|
  {
    assert GoodCharacter(t, x) && GoodCharacter(t, 1);
    if x == 0 then 1 else Ec(t, x)
  }

  /** The state after the whole text. */
  ghost function Run(t: Tables, text: seq<byte>): (s: int)
    requires Valid(t)
    ensures 1 <= s <= t.jam < |t.base| && s != t.eob
  {
    if text == [] then START
    else
      var before := Run(t, text[..|text| - 1]);
      var c := ClassOf(t, text[|text| - 1]);
      NextReal(t, before, c);
      Next(t, before, c)
  }

  ghost function Accepts(t: Tables, text: seq<byte>): int
    requires Valid(t)
  {
    t.accept[Run(t, text)]
  }

  lemma RunStep(t: Tables, text: seq<byte>, n: nat)
    requires Valid(t) && n < |text|
    ensures Run(t, text[..n + 1]) == Next(t, Run(t, text[..n]), ClassOf(t, text[n]))
  {
    assert text[..n + 1][..n] == text[..n];
  }

  /** Once the automaton jams it stays jammed. */
  lemma {:induction false} JamStays(t: Tables, text: seq<byte>, n: nat, m: nat)
    requires Valid(t) && n <= m <= |text| && Run(t, text[..n]) == t.jam
    ensures Run(t, text[..m]) == t.jam
    decreases m
  {
    if n < m {
      JamStays(t, text, n, m - 1);
      RunStep(t, text, m - 1);
      NextJams(t, ClassOf(t, text[m - 1]));
    }
  }

  /** Beyond a state that ends the matching loop nothing is accepted. */
  lemma StopsBeyond(t: Tables, text: seq<byte>, n: nat, m: nat)
    requires Valid(t) && n < m <= |text| && t.base[Run(t, text[..n])] == t.jamBase
    ensures Accepts(t, text[..m]) == 0
  {
    var s := Run(t, text[..n]);
    RunStep(t, text, n);
    if s == t.jam {
      JamStays(t, text, n, m);
    } else {
      NextStops(t, s, ClassOf(t, text[n]));
      JamStays(t, text, n + 1, m);
    }
  }

  // ------------------------------------------------------------------------------------------
  // Longest match
  // ------------------------------------------------------------------------------------------

  /** The prefix of length `n` is accepted and no longer one is. */
  ghost predicate IsLongest(t: Tables, text: seq<byte>, n: nat)
    requires Valid(t)
  {
    n <= |text| && Accepts(t, text[..n]) != 0 &&
    forall m :: n < m <= |text| ==> Accepts(t, text[..m]) == 0
  }

  /** The length of the longest accepted prefix no longer than `n`, or zero. */
  ghost function LongestUpTo(t: Tables, text: seq<byte>, n: nat): (r: nat)
    requires Valid(t) && n <= |text|
    ensures r <= n
  {
    if n == 0 || Accepts(t, text[..n]) != 0 then n else LongestUpTo(t, text, n - 1)
  }

  ghost function Longest(t: Tables, text: seq<byte>): (r: nat)
    requires Valid(t)
    ensures r <= |text|
  {
    LongestUpTo(t, text, |text|)
  }

  lemma SingleAccepted(t: Tables, text: seq<byte>)
    requires Valid(t) && text != []
    ensures Accepts(t, text[..1]) != 0
  {
    assert text[..0] == [];
    RunStep(t, text, 0);
    NextFirst(t, ClassOf(t, text[0]));
  }

  lemma NothingAccepted(t: Tables)
    requires Valid(t)
    ensures Accepts(t, []) == 0
  {
  }

  lemma {:induction false} LongestUpToIs(t: Tables, text: seq<byte>, n: nat)
    requires Valid(t) && 1 <= n <= |text|
    requires forall m :: n < m <= |text| ==> Accepts(t, text[..m]) == 0
    ensures IsLongest(t, text, LongestUpTo(t, text, n)) && LongestUpTo(t, text, n) >= 1
  {
    SingleAccepted(t, text);
    if Accepts(t, text[..n]) == 0 {
      LongestUpToIs(t, text, n - 1);
    }
  }

  /** Every nonempty text has exactly one longest match, and it is not empty. */
  lemma LongestIs(t: Tables, text: seq<byte>)
    requires Valid(t) && text != []
    ensures IsLongest(t, text, Longest(t, text)) && Longest(t, text) >= 1
    ensures forall n: nat :: IsLongest(t, text, n) ==> n == Longest(t, text)
  {
    LongestUpToIs(t, text, |text|);
    var r := Longest(t, text);
    forall n: nat | IsLongest(t, text, n) ensures n == r {
      assert !(n < r);
    }
  }

  /** A rule and the text it matched. */
  datatype Match = Match(rule: int, text: seq<byte>)

  /** The text cut into its successive longest matches. */
  ghost function Matches(t: Tables, text: seq<byte>): seq<Match>
    requires Valid(t)
    decreases |text|
  {
    if text == [] then []
    else
      LongestIs(t, text);
      var n := Longest(t, text);
      [Match(Accepts(t, text[..n]), text[..n])] + Matches(t, text[n..])
  }

  ghost function Texts(ms: seq<Match>): seq<byte> {
    if ms == [] then [] else ms[0].text + Texts(ms[1..])
  }

  lemma MatchesStep(t: Tables, text: seq<byte>)
    requires Valid(t) && text != []
    ensures Longest(t, text) >= 1
    ensures Matches(t, text) ==
      [Match(Accepts(t, text[..Longest(t, text)]), text[..Longest(t, text)])] + Matches(t, text[Longest(t, text)..])
  {
    LongestIs(t, text);
  }

  lemma TextsStep(m: Match, ms: seq<Match>)
    ensures Texts([m] + ms) == m.text + Texts(ms)
  {
    assert ([m] + ms)[1..] == ms;
  }

  /** Nothing is lost: the matched texts make up the input. */
  lemma {:induction false} MatchesCover(t: Tables, text: seq<byte>)
    requires Valid(t)
    ensures Texts(Matches(t, text)) == text
    decreases |text|
  {
    hide Longest, Accepts, Valid;
    if text == [] {
      assert Matches(t, text) == [];
    } else {
      MatchesStep(t, text);
      hide Matches, Texts;
      var n := Longest(t, text);
      MatchesCover(t, text[n..]);
      TextsStep(Match(Accepts(t, text[..n]), text[..n]), Matches(t, text[n..]));
      assert text == text[..n] + text[n..];
    }
  }
}
