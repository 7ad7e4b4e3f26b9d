/** When the decoder of the ASCII replacement comes to an end. */
module DecoderEnds {
  import opened AsciiCodec
  import opened Bytes

  // ------------------------------------------------------------------------------------------
  // Ending, turn by turn
  // ------------------------------------------------------------------------------------------

  /** The loop is left within `n` turns. */
  ghost predicate EndsWithin(input: seq<byte>, pos: nat, b: Buffers, n: nat)
    requires pos <= |input| && |b.p| == 8
    decreases n
  {
    pos == |input|
    || (n > 0
        && match Turn(input, pos, b)
           case Overflow => true
           case Effect(next, buffers, _) => TurnStays(input, pos, b); EndsWithin(input, next, buffers, n - 1))
  }

  ghost predicate Ends(input: seq<byte>, b: Buffers)
    requires |b.p| == 8
  {
    exists n :: EndsWithin(input, 0, b, n)
  }

  lemma {:induction false} ForwardEnds(input: seq<byte>, pos: nat, b: Buffers)
    requires pos <= |input| && |b.p| == 8 && Run(input, pos, b) != Endless
    ensures EndsWithin(input, pos, b, |input| - pos)
    decreases |input| - pos
  {
    hide Turn;
    if pos < |input| && Turn(input, pos, b).Effect? {
      var next, c := Turn(input, pos, b).pos, Turn(input, pos, b).buffers;
      TurnStays(input, pos, b);
      ForwardEnds(input, next, c);
      EndsLater(input, next, c, |input| - next, |input| - pos - 1);
    }
  }

  lemma {:induction false} EndsLater(input: seq<byte>, pos: nat, b: Buffers, n: nat, m: nat)
    requires pos <= |input| && |b.p| == 8 && EndsWithin(input, pos, b, n) && n <= m
    ensures EndsWithin(input, pos, b, m)
    decreases n
  {
    hide Turn;
    if pos < |input| && Turn(input, pos, b).Effect? {
      TurnStays(input, pos, b);
      EndsLater(input, Turn(input, pos, b).pos, Turn(input, pos, b).buffers, n - 1, m - 1);
    }
  }

  // ------------------------------------------------------------------------------------------
  // Eight bytes or more
  // ------------------------------------------------------------------------------------------

  /** Between the place seven bytes before the end and one where the input runs dry. */
  ghost predicate Trapped(input: seq<byte>, pos: nat, b: Buffers, dry: nat) {
    && |input| >= 8 && Dry(input, dry) && |input| - 7 <= pos <= dry
    && |b.p| == 8 && CString(b.p) != REST
  }

  lemma {:induction false} ShortString(p: seq<byte>, k: nat)
    requires k < 7 <= |p| && p[k] == 0
    ensures CString(p) != REST
  {
    OtherRest(p, k);
  }

  /** Where the input runs dry a turn does not go on, but steps back by no more than to seven bytes before the end. */
  lemma DryTraps(input: seq<byte>, pos: nat, b: Buffers)
    requires |input| >= 8 && |b.p| == 8 && Dry(input, pos) && (pos + 1 == |input| ==> CString(b.p) != REST)
    ensures Turn(input, pos, b).Effect? && Trapped(input, Turn(input, pos, b).pos, Turn(input, pos, b).buffers, pos)
  {
    hide CString, NewlineAt, GetsInto, Turn;
    DryTurn(input, pos, b);
    var k, p := |input| - pos - 1, GetsInto(input, pos + 1, b.p);
    var sb := NewlineAt(p, 0);
    if k > 0 {
      assert p[k] == 0;
      ShortString(p, k);
    }
    NewlineIs(p, 0);
  }

  lemma NewlineIs(p: seq<byte>, sb: nat)
    requires |p| == 8 && sb <= 7
    ensures sb <= NewlineAt(p, sb) <= 7 && (NewlineAt(p, sb) < 7 ==> p[NewlineAt(p, sb)] == NEWLINE)
  {
  }

  lemma TrappedStays(input: seq<byte>, pos: nat, b: Buffers, dry: nat)
    requires Trapped(input, pos, b, dry)
    ensures pos < |input| && Turn(input, pos, b).Effect?
    ensures Trapped(input, Turn(input, pos, b).pos, Turn(input, pos, b).buffers, dry)
  {
    hide CString, Turn, MarkerAt;
    if Dry(input, pos) {
      DryTraps(input, pos, b);
    } else {
      TooLate(input, pos);
      TurnCopies(input, pos, b);
    }
  }

  lemma TooLate(input: seq<byte>, pos: nat)
    requires pos + 8 > |input|
    ensures !MarkerAt(input, pos)
  {
  }

  lemma {:induction false} TrappedForEver(input: seq<byte>, pos: nat, b: Buffers, dry: nat, n: nat)
    requires Trapped(input, pos, b, dry)
    ensures pos <= |input| && |b.p| == 8 && !EndsWithin(input, pos, b, n)
    decreases n
  {
    hide Turn, CString;
    TrappedStays(input, pos, b, dry);
    if n > 0 {
      TrappedForEver(input, Turn(input, pos, b).pos, Turn(input, pos, b).buffers, dry, n - 1);
    }
  }

  /** A turn that does not go on is one where the input runs dry. */
  lemma StuckIsDry(input: seq<byte>, pos: nat, b: Buffers)
    requires pos < |input| && |b.p| == 8 && Turn(input, pos, b).Effect? && Turn(input, pos, b).pos <= pos
    ensures Dry(input, pos) && (pos + 1 == |input| ==> CString(b.p) != REST)
  {
    hide Turn, CString, MarkerAt;
    if MarkerAt(input, pos) {
      TurnProgress(input, pos, b);
    } else if Dry(input, pos) {
      DryStuck(input, pos, b);
    } else {
      TurnCopies(input, pos, b);
    }
  }

  lemma DryStuck(input: seq<byte>, pos: nat, b: Buffers)
    requires |b.p| == 8 && Dry(input, pos) && Turn(input, pos, b).Effect? && Turn(input, pos, b).pos <= pos
    ensures pos + 1 == |input| ==> CString(b.p) != REST
  {
    hide Turn, CString, NewlineAt;
    DryTurn(input, pos, b);
    if pos + 1 == |input| {
      NewlineIs(b.p, 0);
      if NewlineAt(b.p, 0) < 7 { OtherRest(b.p, NewlineAt(b.p, 0)); }
    }
  }

  lemma {:induction false} LongForEver(input: seq<byte>, pos: nat, b: Buffers, n: nat)
    requires |input| >= 8 && pos <= |input| && |b.p| == 8 && Run(input, pos, b) == Endless
    ensures !EndsWithin(input, pos, b, n)
    decreases n
  {
    hide Turn, CString, Dry;
    if n > 0 {
      TurnStays(input, pos, b);
      var next, c := Turn(input, pos, b).pos, Turn(input, pos, b).buffers;
      if pos < next {
        BeforeEndless(Turn(input, pos, b).out, Run(input, next, c));
        LongForEver(input, next, c, n - 1);
      } else {
        StuckIsDry(input, pos, b);
        DryTraps(input, pos, b);
        TrappedForEver(input, next, c, pos, n - 1);
      }
    }
  }

  lemma BeforeEndless(a: seq<byte>, o: Outcome)
    ensures Before(a, o) == Endless <==> o == Endless
  {
  }

  // ------------------------------------------------------------------------------------------
  // Fewer than eight bytes
  // ------------------------------------------------------------------------------------------

  /** The line buffer after a turn. */
  function Step(input: seq<byte>, pos: nat, p: seq<byte>): (r: seq<byte>)
    requires pos < |input| && |p| == 8
    ensures |r| == 8
  {
    if input[pos] == MARKER[0] then GetsInto(input, pos + 1, p) else p
  }

  function Walk(input: seq<byte>, pos: nat, upto: nat, p: seq<byte>): (r: seq<byte>)
    requires pos <= upto <= |input| && |p| == 8
    ensures |r| == 8
    decreases upto - pos
  {
    if pos == upto then p else Walk(input, pos + 1, upto, Step(input, pos, p))
  }

  /** A read overwrites the front of the buffer, the same whatever it held. */
  lemma StepAt(input: seq<byte>, pos: nat, p: seq<byte>, q: seq<byte>, i: nat)
    requires pos < |input| && |p| == |q| == 8 && i < 8
    ensures Step(input, pos, p)[i] == Step(input, pos, q)[i]
            || (Step(input, pos, p)[i] == p[i] && Step(input, pos, q)[i] == q[i])
  {
    hide ReadLength;
  }

  /** So does a walk. */
  lemma {:induction false} WalkAt(input: seq<byte>, pos: nat, upto: nat, p: seq<byte>, q: seq<byte>, i: nat)
    requires pos <= upto <= |input| && |p| == |q| == 8 && i < 8
    ensures Walk(input, pos, upto, p)[i] == Walk(input, pos, upto, q)[i]
            || (Walk(input, pos, upto, p)[i] == p[i] && Walk(input, pos, upto, q)[i] == q[i])
    decreases upto - pos
  {
    if pos < upto {
      hide GetsInto;
      StepAt(input, pos, p, q, i);
      WalkAt(input, pos + 1, upto, Step(input, pos, p), Step(input, pos, q), i);
    }
  }

  /** The same walk once more, from what it left, leaves the same. */
  lemma WalkAgain(input: seq<byte>, pos: nat, upto: nat, p: seq<byte>)
    requires pos <= upto < |input| && |p| == 8
    ensures var left := Step(input, upto, Walk(input, pos, upto, p));
      Step(input, upto, Walk(input, pos, upto, left)) == left
  {
    var w := Walk(input, pos, upto, p);
    var left := Step(input, upto, w);
    var v := Walk(input, pos, upto, left);
    hide Step, Walk;
    forall i | 0 <= i < 8 ensures Step(input, upto, v)[i] == left[i] {
      WalkAt(input, pos, upto, left, p, i);
      StepAt(input, upto, v, w, i);
      StepSame(input, upto, v, w, i);
    }
  }

  lemma StepSame(input: seq<byte>, upto: nat, v: seq<byte>, w: seq<byte>, i: nat)
    requires upto < |input| && |v| == |w| == 8 && i < 8
    ensures v[i] == w[i] ==> Step(input, upto, v)[i] == Step(input, upto, w)[i]
    ensures v[i] == Step(input, upto, w)[i] ==> Step(input, upto, v)[i] == Step(input, upto, w)[i]
  {
    hide ReadLength;
  }

  lemma {:induction false} WalkSplits(input: seq<byte>, pos: nat, mid: nat, upto: nat, p: seq<byte>)
    requires pos <= mid <= upto <= |input| && |p| == 8
    ensures Walk(input, pos, upto, p) == Walk(input, mid, upto, Walk(input, pos, mid, p))
    decreases mid - pos
  {
    hide Step;
    if pos < mid {
      WalkSplits(input, pos + 1, mid, upto, Step(input, pos, p));
    }
  }

  /** A turn before the place where a short input runs dry. */
  lemma ShortTurn(input: seq<byte>, pos: nat, b: Buffers)
    requires |input| < 8 && pos < |input| && |b.p| == 8 && !Dry(input, pos)
    ensures Turn(input, pos, b).Effect? && Turn(input, pos, b).pos == pos + 1
    ensures Turn(input, pos, b).buffers.p == Step(input, pos, b.p)
  {
    TooLate(input, pos);
    TurnCopies(input, pos, b);
    hide CString, NewlineAt, GetsInto, Numbers, Dry;
    assert Turn(input, pos, b).buffers.p == Step(input, pos, b.p);
  }

  /** Where it runs dry, a newline left in the buffer leads back to `back`; without one the run ends. */
  lemma ShortDry(input: seq<byte>, pos: nat, b: Buffers)
    requires |input| < 8 && |b.p| == 8 && Dry(input, pos)
    ensures Turn(input, pos, b).Effect? && Turn(input, pos, b).buffers.p == Step(input, pos, b.p)
    ensures var sb := NewlineAt(Step(input, pos, b.p), 0);
      if sb + 1 < |input| then Turn(input, pos, b).pos == |input| - 1 - sb <= pos
        else Turn(input, pos, b).pos == |input|
  {
    hide CString, NewlineAt, GetsInto, Turn;
    DryTurn(input, pos, b);
    NewlineIs(Step(input, pos, b.p), 0);
  }

  /** Going around between `back` and the place where the input runs dry; there the buffer is always `left`. */
  ghost predicate GoesAround(input: seq<byte>, pos: nat, b: Buffers, back: nat, dry: nat, left: seq<byte>) {
    && |input| < 8 && Dry(input, dry) && back <= pos <= dry && |b.p| == |left| == 8
    && (forall i :: 0 <= i < dry ==> !Dry(input, i))
    && NewlineAt(left, 0) + 1 < |input| && back == |input| - 1 - NewlineAt(left, 0)
    && Step(input, dry, Walk(input, pos, dry, b.p)) == left
    && Step(input, dry, Walk(input, back, dry, left)) == left
  }

  lemma AroundStays(input: seq<byte>, pos: nat, b: Buffers, back: nat, dry: nat, left: seq<byte>)
    requires GoesAround(input, pos, b, back, dry, left)
    ensures pos < |input| && Turn(input, pos, b).Effect?
    ensures GoesAround(input, Turn(input, pos, b).pos, Turn(input, pos, b).buffers, back, dry, left)
  {
    hide Turn, Step, NewlineAt, Dry;
    DryIn(input, dry);
    if pos == dry {
      ShortDry(input, pos, b);
    } else {
      ShortTurn(input, pos, b);
    }
  }

  lemma DryIn(input: seq<byte>, dry: nat)
    requires Dry(input, dry)
    ensures dry < |input|
  {
  }

  lemma {:induction false} AroundForEver(input: seq<byte>, pos: nat, b: Buffers, back: nat, dry: nat, left: seq<byte>,
                                         n: nat)
    requires GoesAround(input, pos, b, back, dry, left)
    ensures pos <= |input| && |b.p| == 8 && !EndsWithin(input, pos, b, n)
    decreases n
  {
    hide Turn, GoesAround;
    AroundIs(input, pos, b, back, dry, left);
    AroundStays(input, pos, b, back, dry, left);
    if n > 0 {
      AroundForEver(input, Turn(input, pos, b).pos, Turn(input, pos, b).buffers, back, dry, left, n - 1);
    }
  }

  lemma AroundIs(input: seq<byte>, pos: nat, b: Buffers, back: nat, dry: nat, left: seq<byte>)
    requires GoesAround(input, pos, b, back, dry, left)
    ensures pos < |input| && |b.p| == 8
  {
  }

  /** A short input from the start: up to the place where it first runs dry the run goes on, and there it ends or
      goes around for ever. */
  lemma {:induction false} ShortForEver(input: seq<byte>, pos: nat, b: Buffers, start: seq<byte>, n: nat)
    requires |input| < 8 && pos <= |input| && |b.p| == |start| == 8 && Run(input, pos, b) == Endless
    requires b.p == Walk(input, 0, pos, start) && forall i :: 0 <= i < pos ==> !Dry(input, i)
    ensures !EndsWithin(input, pos, b, n)
    decreases n
  {
    hide Turn, Step, Walk, NewlineAt, Dry;
    if n > 0 {
      TurnStays(input, pos, b);
      var next, c := Turn(input, pos, b).pos, Turn(input, pos, b).buffers;
      if Dry(input, pos) {
        ShortDry(input, pos, b);
        RunEnds(input, c);
        BeforeEndless(Turn(input, pos, b).out, Done([]));
        WalkSplits(input, 0, next, pos, start);
        WalkAgain(input, next, pos, Walk(input, 0, next, start));
        AroundForEver(input, next, c, next, pos, c.p, n - 1);
      } else {
        ShortTurn(input, pos, b);
        BeforeEndless(Turn(input, pos, b).out, Run(input, next, c));
        WalkOn(input, pos, start);
        ShortForEver(input, next, c, start, n - 1);
      }
    }
  }

  lemma WalkOn(input: seq<byte>, pos: nat, p: seq<byte>)
    requires pos < |input| && |p| == 8
    ensures Walk(input, 0, pos + 1, p) == Step(input, pos, Walk(input, 0, pos, p))
  {
    hide Step;
    WalkSplits(input, 0, pos, pos + 1, p);
    var w := Walk(input, 0, pos, p);
    assert Walk(input, pos + 1, pos + 1, Step(input, pos, w)) == Step(input, pos, w);
  }

  // ------------------------------------------------------------------------------------------
  // The results
  // ------------------------------------------------------------------------------------------

  /** For every input and whatever the buffers hold: the decoder ends if and only if it never steps back, that is if
      and only if it has the outcome of a run that only goes on. */
  lemma EndsIffForward(input: seq<byte>, b: Buffers)
    requires |b.p| == 8
    ensures Ends(input, b) <==> Run(input, 0, b) != Endless
  {
    if Run(input, 0, b) != Endless {
      ForwardEnds(input, 0, b);
    } else {
      assert Walk(input, 0, 0, b.p) == b.p;
      forall n: nat ensures !EndsWithin(input, 0, b, n) {
        if |input| >= 8 { LongForEver(input, 0, b, n); } else { ShortForEver(input, 0, b, b.p, n); }
      }
    }
  }

  lemma {:induction false} CopiesUnlessDry(input: seq<byte>, pos: nat, b: Buffers)
    requires |input| >= 8 && NoMarker(input) && pos <= |input| && |b.p| == 8 && CString(b.p) != REST
    ensures Run(input, pos, b)
         == if exists i :: pos <= i < |input| && Dry(input, i) then Endless else Done(input[pos..])
    decreases |input| - pos
  {
    hide Turn, CString, Dry, MarkerAt;
    if pos < |input| {
      if Dry(input, pos) {
        DryTraps(input, pos, b);
      } else {
        TurnCopies(input, pos, b);
        CopiesUnlessDry(input, pos + 1, Turn(input, pos, b).buffers);
        BeforeEndless([input[pos]], Run(input, pos + 1, Turn(input, pos, b).buffers));
        assert [input[pos]] + input[pos + 1..] == input[pos..];
      }
    }
  }

  /** An input of eight bytes or more without the marker comes out as it is, unless it holds an "n" behind the last
      newline with fewer than seven bytes behind it: then, and only then, the decoder does not end. */
  lemma EndsUnlessDry(input: seq<byte>, b: Buffers)
    requires |input| >= 8 && NoMarker(input) && |b.p| == 8 && CString(b.p) != REST
    ensures Ends(input, b) <==> forall i :: 0 <= i < |input| ==> !Dry(input, i)
    ensures Ends(input, b) <==>
      forall i :: |input| - 7 <= i < |input| && input[i] == 110 ==> exists j :: i <= j < |input| && input[j] == 10
    ensures Ends(input, b) ==> Run(input, 0, b) == Done(input)
  {
    forall i | 0 <= i < |input|
      ensures Dry(input, i) <==>
        i >= |input| - 7 && input[i] == 110 && !exists j :: i <= j < |input| && input[j] == 10
    {
    }
    hide Run, Dry, MarkerAt, CString;
    CopiesUnlessDry(input, 0, b);
    EndsIffForward(input, b);
    assert input[0..] == input;
  }

  /** A text that ends its last line nowhere runs dry, so the decoder ends on it, with the marker or without. */
  lemma {:induction false} LinesEnd(input: seq<byte>, pos: nat, b: Buffers)
    requires EndsLine(input) && pos <= |input| && |b.p| == 8
    ensures Run(input, pos, b) != Endless
    decreases |input| - pos
  {
    hide Turn, CString, MarkerAt;
    if pos < |input| && Turn(input, pos, b).Effect? {
      if MarkerAt(input, pos) {
        TurnProgress(input, pos, b);
      } else {
        TurnCopies(input, pos, b);
      }
      LinesEnd(input, Turn(input, pos, b).pos, Turn(input, pos, b).buffers);
      BeforeEndless(Turn(input, pos, b).out, Run(input, Turn(input, pos, b).pos, Turn(input, pos, b).buffers));
    }
  }

  /** Fewer than eight bytes without a newline, and none left in the buffer: the decoder ends. */
  lemma {:induction false} ShortEnds(input: seq<byte>, pos: nat, b: Buffers)
    requires |input| < 8 && pos <= |input| && |b.p| == 8 && LastLine(input, 0) && NewlineAt(b.p, 0) == 7
    ensures Run(input, pos, b) != Endless
    decreases |input| - pos
  {
    hide Turn, CString, MarkerAt;
    if pos < |input| {
      if Dry(input, pos) {
        ShortDry(input, pos, b);
        NoNewlineRead(input, pos, b.p);
        RunEnds(input, Turn(input, pos, b).buffers);
      } else {
        ShortTurn(input, pos, b);
        ShortEnds(input, pos + 1, Turn(input, pos, b).buffers);
      }
      BeforeEndless(Turn(input, pos, b).out, Run(input, Turn(input, pos, b).pos, Turn(input, pos, b).buffers));
    }
  }

  lemma NoNewlineRead(input: seq<byte>, pos: nat, p: seq<byte>)
    requires |input| < 8 && |p| == 8 && LastLine(input, 0) && NewlineAt(p, 0) == 7 && Dry(input, pos)
    ensures NewlineAt(Step(input, pos, p), 0) == 7
  {
    hide ReadLength;
    var r := Step(input, pos, p);
    assert forall i :: 0 <= i < 7 ==> r[i] != NEWLINE;
  }

  /** For instance eight letters and an "n", without a newline. */
  lemma NoNewlineLoops(b: Buffers)
    requires |b.p| == 8 && CString(b.p) != REST
    ensures !Ends([120, 120, 120, 120, 120, 120, 120, 120, 110], b)
  {
    hide CString;
    var input: seq<byte> := [120, 120, 120, 120, 120, 120, 120, 120, 110];
    forall i | 0 <= i < |input| ensures !MarkerAt(input, i) {
      assert i + 8 <= |input| ==> input[i..i + 8][0] == 120;
    }
    assert Dry(input, 8);
    EndsUnlessDry(input, b);
  }
}
