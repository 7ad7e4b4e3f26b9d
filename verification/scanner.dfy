/** The generated scanner: table-driven matching over a buffer that is refilled, moved and grown in
    place, with back-up to the last accepting state. */
module FlexScanner {
  import opened Bytes
  import opened FlexTables
  import opened LongestMatch

  const YY_BUF_SIZE := 16384
  const YY_READ_BUF_SIZE := 8192

  datatype Status = BufferNew | BufferNormal | EofPending

  datatype EobAction = ContinueScan | EndOfFile | LastMatch

  /** How matching goes on after an end-of-buffer character: not at all, by more matching, or by
      taking the action of the state reached. */
  datatype Resume = Finished | Rematch(state: int) | TakeAction(state: int)

  /** The best match among the first `k` characters before the current one is on record: if any
      proper prefix of them is accepted, the longest one's state and end are (state, end). */
  ghost predicate Recorded(t: Tables, rest: seq<byte>, k: nat, start: int, state: int, end: int)
    requires Valid(t) && k <= |rest|
  {
    k >= 1 ==>
      var m := LongestUpTo(t, rest, k - 1);
      m > 0 ==> end == start + m && state == Run(t, rest[..m])
  }

  /** No prefix longer than `k` is accepted. */
  ghost predicate NoMore(t: Tables, rest: seq<byte>, k: nat)
    requires Valid(t)
  {
    forall m :: k < m <= |rest| ==> Accepts(t, rest[..m]) == 0
  }

  class Lexer {
    const t: Tables

    // The file, and how much of it YY_INPUT has delivered.
    const input: seq<byte>
    var delivered: nat

    // The current buffer.
    var chBuf: array<byte>
    var bufSize: nat
    var bufChars: nat
    var status: Status

    // The scanner's statics. Positions are indices into the buffer.
    var nChars: nat
    var cBufP: nat
    var textPtr: nat
    var hold: byte
    var lastState: int
    var lastCpos: int

    /** Every action so far, with the rule number and yytext. */
    var matches: seq<Match>

    constructor (tables: Tables, file: seq<byte>)
      requires Valid(tables)
      ensures t == tables && input == file && matches == []
      ensures Ready() && Unread() == file && fresh(chBuf)
    {
      t, input, delivered := tables, file, 0;
      chBuf := new byte[YY_BUF_SIZE + 2](_ => 0);
      bufSize, bufChars, status := YY_BUF_SIZE, 0, BufferNew;
      nChars, cBufP, textPtr, hold, lastState, lastCpos := 0, 0, 0, 0, 0, 0;
      matches := [];
    }

    /** The buffer has room for its two end-of-buffer characters. */
    ghost predicate Sized()
      reads this, chBuf
    {
      && bufSize >= 1 && chBuf.Length == bufSize + 2 && nChars <= bufSize && delivered <= |input|
      && (status == BufferNew ==> nChars == bufChars)
      && (status == EofPending ==> delivered == |input|)
    }

    /** The text of the buffer ends in two end-of-buffer characters. */
    ghost predicate Closed()
      reads this, chBuf
    {
      Sized() && chBuf[nChars] == 0 && chBuf[nChars + 1] == 0
    }

    /** What remains to be scanned from position `start` on, buffered or not. */
    ghost function Rest(start: nat): seq<byte>
      reads this, chBuf
      requires Sized() && start <= nChars
    {
      chBuf[start..nChars] + input[delivered..]
    }

    /** Between two calls of the matching code the character after the last match is held back. */
    ghost predicate Ready()
      reads this, chBuf
    {
      && Valid(t) && Sized() && cBufP <= nChars
      && chBuf[nChars + 1] == 0
      && (if cBufP == nChars then hold == 0 else chBuf[nChars] == 0)
    }

    /** The input that no match has consumed yet. */
    ghost function Unread(): seq<byte>
      reads this, chBuf
      requires Ready()
    {
      (if cBufP == nChars then [] else [hold] + chBuf[cBufP + 1..nChars]) + input[delivered..]
    }

    // ----------------------------------------------------------------------------------------
    // Stepping
    // ----------------------------------------------------------------------------------------

    /** One step of the automaton through the compressed tables. */
    method Step(state: int, class_: int) returns (next: int)
      requires In(t, state, class_)
      ensures next == Next(t, state, class_)
    {
      var s, c := state, class_;
      NextTerminates(t, s, c);
      while t.chk[t.base[s] + c] != s
        invariant In(t, s, c) && Next(t, s, c) == Next(t, state, class_)
        invariant 0 <= t.base[s] + c < |t.chk| == |t.nxt|
        decreases Links(t, s)
      {
        NextTerminates(t, s, c);
        s := t.def[s];
        if s >= t.templates {
          c := t.meta[c];
        }
        NextTerminates(t, s, c);
      }
      next := t.nxt[t.base[s] + c];
    }

    /** The state after `k` characters of `rest`, and the best match before them on record. */
    ghost predicate Matching(rest: seq<byte>, start: nat, k: nat, state: int)
      reads this
    {
      && Valid(t) && k <= |rest| && state == Run(t, rest[..k])
      && Recorded(t, rest, k, start, lastState, lastCpos)
    }

    /** An end-of-buffer character was met after `k` characters, and the record shows it. */
    ghost predicate AtEnd(start: nat, k: nat, state: int)
      reads this, chBuf
    {
      && Valid(t) && Closed() && start + k <= nChars && chBuf[start + k] == 0
      && state == t.jam && lastState == t.eob && lastCpos == start + k + 1
    }

    /** Where the matching loop stands: in a run over `rest`, or just past an end-of-buffer character. */
    ghost predicate Cursor(rest: seq<byte>, start: nat, state: int, cp: nat, ended: bool)
      reads this, chBuf
    {
      && Valid(t) && Closed() && start <= nChars && rest == Rest(start)
      && (!ended ==> start <= cp <= nChars && Matching(rest, start, cp - start, state))
      && (ended ==> start < cp <= nChars + 1 && state == t.eob && chBuf[cp - 1] == 0)
    }

    /** The record made before a character is consumed. */
    method Record(state: int, cp: nat)
      requires 0 <= state < |t.accept|
      modifies this`lastState, this`lastCpos
      ensures if t.accept[state] != 0 then lastState == state && lastCpos == cp
              else lastState == old(lastState) && lastCpos == old(lastCpos)
    {
      if t.accept[state] != 0 {
        lastState := state;
        lastCpos := cp;
      }
    }

    /** One turn of the matching loop: record, step, advance. An ordinary character is consumed; an
        end-of-buffer character leads to the end-of-buffer state, and anything after it jams. */
    method Turn(ghost rest: seq<byte>, start: nat, state: int, cp: nat, ghost ended: bool) returns (next: int)
      requires Cursor(rest, start, state, cp, ended)
      modifies this`lastState, this`lastCpos
      ensures !ended && chBuf[cp] != 0 ==> Cursor(rest, start, next, cp + 1, false)
      ensures !ended && chBuf[cp] == 0 ==> Cursor(rest, start, next, cp + 1, true)
      ensures ended ==> AtEnd(start, cp - 1 - start, next)
      ensures 1 <= next <= t.jam
    {
      hide Next, Run, LongestUpTo, Recorded, Ec, ClassOf, Links, Accepts;
      Facts(t, state);
      hide Valid;
      Ranges(t, state, chBuf[cp]);
      if ended {
        NextAfterEnd(t, Ec(t, chBuf[cp]));
      } else if chBuf[cp] == 0 {
        NextAtEnd(t, state);
      } else {
        assert cp < nChars && rest[cp - start] == chBuf[cp];
        OneMore(t, rest, cp - start, start, lastState, lastCpos);
      }
      Record(state, cp);
      next := Step(state, Ec(t, chBuf[cp]));
    }

    /** The matching loop, entered after `at - start` characters of `rest`. It ends in a state that
        ends it, or just after an end-of-buffer character. */
    method Match(start: nat, from: int, at: nat, ghost rest: seq<byte>)
      returns (state: int, cp: nat, ghost ended: bool)
      requires Cursor(rest, start, from, at, false)
      modifies this`lastState, this`lastCpos
      ensures !ended ==> at < cp && Cursor(rest, start, state, cp, false) && Stops(t, state)
      ensures ended ==> at + 2 <= cp <= nChars + 2 && AtEnd(start, cp - 2 - start, state)
    {
      hide Run, LongestUpTo, Recorded, Next, Rest;
      Facts(t, START);
      hide Valid;
      state, cp := from, at;
      ended := false;
      while true
        invariant at <= cp <= nChars + 1
        invariant Cursor(rest, start, state, cp, ended)
        invariant ended ==> at < cp
        decreases nChars + 1 - cp
      {
        ghost var onEnd := !ended && chBuf[cp] == 0;
        state := Turn(rest, start, state, cp, ended);
        cp := cp + 1;
        if t.base[state] == t.jamBase {
          break;
        }
        ended := onEnd;
      }
    }

    // ----------------------------------------------------------------------------------------
    // Resuming a match
    // ----------------------------------------------------------------------------------------

    /** yy_get_previous_state: runs the automaton again over the text kept in the buffer. */
    method PreviousState(ghost rest: seq<byte>) returns (state: int)
      requires Valid(t) && Closed() && textPtr <= cBufP <= nChars && rest == Rest(textPtr)
      modifies this`lastState, this`lastCpos
      ensures Matching(rest, textPtr, cBufP - textPtr, state)
    {
      hide Next, Run, LongestUpTo, Links, Accepts, Ec, ClassOf;
      state := START;
      RunStart(t, rest);
      Facts(t, START);
      hide Valid;
      var cp := textPtr;
      while cp < cBufP
        invariant textPtr <= cp <= cBufP && Matching(rest, textPtr, cp - textPtr, state)
      {
        assert rest[cp - textPtr] == chBuf[cp];
        OneMore(t, rest, cp - textPtr, textPtr, lastState, lastCpos);
        Ranges(t, state, chBuf[cp]);
        NulClass(t, state);
        Record(state, cp);
        state := Step(state, if chBuf[cp] != 0 then Ec(t, chBuf[cp]) else 1);
        cp := cp + 1;
      }
    }

    /** yy_try_NUL_trans: the transition on a NUL of the input, or 0 if it jams. */
    method TryNul(state: int, ghost rest: seq<byte>) returns (next: int)
      requires Valid(t) && Closed() && textPtr <= cBufP < nChars && rest == Rest(textPtr)
      requires chBuf[cBufP] == 0 && Matching(rest, textPtr, cBufP - textPtr, state)
      modifies this`lastState, this`lastCpos
      ensures var k := cBufP - textPtr;
        && k < |rest|
        && (if Run(t, rest[..k + 1]) == t.jam then next == 0 else next == Run(t, rest[..k + 1]))
      ensures Recorded(t, rest, cBufP - textPtr + 1, textPtr, lastState, lastCpos)
    {
      hide Next, LongestUpTo, Links, Accepts, Ec, ClassOf;
      Facts(t, START);
      Ranges(t, state, 0);
      NulClass(t, state);
      assert rest[cBufP - textPtr] == chBuf[cBufP];
      OneMore(t, rest, cBufP - textPtr, textPtr, lastState, lastCpos);
      hide Valid, Run;
      Record(state, cBufP);
      next := Step(state, 1);
      if next == t.jam { next := 0; }
    }

    // ----------------------------------------------------------------------------------------
    // Refilling the buffer
    // ----------------------------------------------------------------------------------------

    /** Moves the first `n` characters of the current text to the start of the buffer. */
    method MoveText(n: nat)
      requires textPtr + n <= chBuf.Length
      modifies chBuf
      ensures chBuf[..n] == old(chBuf[textPtr..textPtr + n])
    {
      var i := 0;
      while i < n
        invariant 0 <= i <= n
        invariant chBuf[..i] == old(chBuf[textPtr..textPtr + i])
        invariant forall j :: i <= j < chBuf.Length ==> chBuf[j] == old(chBuf[j])
      {
        chBuf[i] := chBuf[textPtr + i];
        i := i + 1;
      }
    }

    /** Doubles the buffer until something fits after the first `n` characters, which it keeps. */
    method Grow(n: nat)
      requires bufSize >= 1 && chBuf.Length == bufSize + 2 && n <= bufSize
      modifies this`chBuf, this`bufSize
      ensures bufSize >= old(bufSize) && chBuf.Length == bufSize + 2 && n + 1 < bufSize
      ensures chBuf == old(chBuf) || fresh(chBuf)
      ensures chBuf[..n] == old(chBuf[..n])
    {
      while bufSize - n - 1 <= 0
        invariant bufSize >= 1 && bufSize >= old(bufSize) && chBuf.Length == bufSize + 2 && n <= bufSize
        invariant chBuf == old(chBuf) || fresh(chBuf)
        invariant chBuf[..n] == old(chBuf[..n])
        decreases n + 2 - bufSize
      {
        bufSize := bufSize * 2;
        var larger := new byte[bufSize + 2](_ => 0);
        forall i | 0 <= i < chBuf.Length {
          larger[i] := chBuf[i];
        }
        assert larger[..n] == chBuf[..n];
        chBuf := larger;
      }
    }

    /** YY_INPUT: delivers any nonempty chunk of at most `max` characters, or nothing at the end. */
    method Input(at: nat, max: nat) returns (n: nat)
      requires delivered <= |input| && 1 <= max && at + max <= chBuf.Length
      modifies this`delivered, chBuf
      ensures n <= max && delivered == old(delivered) + n <= |input|
      ensures n == 0 <==> old(delivered) == |input|
      ensures chBuf[..at] == old(chBuf[..at])
      ensures chBuf[at..at + n] == input[old(delivered)..delivered]
    {
      var left := |input| - delivered;
      if left == 0 {
        return 0;
      }
      n :| 1 <= n <= max && n <= left;
      forall i | 0 <= i < n {
        chBuf[at + i] := input[delivered + i];
      }
      delivered := delivered + n;
    }

    /** yyrestart, yy_flush_buffer and yy_load_buffer_state: the buffer becomes new and empty. */
    method Restart()
      requires chBuf.Length >= 2
      modifies this`bufChars, this`status, this`nChars, this`textPtr, this`cBufP, this`hold, chBuf
      ensures bufChars == nChars == textPtr == cBufP == 0 && status == BufferNew && hold == 0
      ensures chBuf[0] == 0 && chBuf[1] == 0
    {
      bufChars := 0;
      chBuf[0], chBuf[1] := 0, 0;
      status := BufferNew;
      nChars := bufChars;
      textPtr, cBufP := 0, 0;
      hold := chBuf[cBufP];
    }

    /** Reads more text after the first `k` characters of the buffer. */
    method Refill(k: nat) returns (n: nat)
      requires Sized() && k <= bufSize && status != EofPending
      modifies this`chBuf, this`bufSize, this`delivered, this`nChars, this`bufChars, chBuf
      ensures bufSize >= 1 && chBuf.Length == bufSize + 2 && k + n < bufSize && nChars == bufChars == n
      ensures delivered == old(delivered) + n <= |input| && (n == 0 <==> old(delivered) == |input|)
      ensures chBuf == old(chBuf) || fresh(chBuf)
      ensures chBuf[..k + n] == old(chBuf[..k]) + input[old(delivered)..delivered]
    {
      Grow(k);
      var numToRead := bufSize - k - 1;
      if numToRead > YY_READ_BUF_SIZE {
        numToRead := YY_READ_BUF_SIZE;
      }
      n := Input(k, numToRead);
      bufChars, nChars := n, n;
      assert chBuf[..k + n] == chBuf[..k] + chBuf[k..k + n];
    }

    /** Puts the two end-of-buffer characters after the text, which starts the buffer. */
    method Close()
      requires nChars + 1 < chBuf.Length
      modifies this`textPtr, chBuf
      ensures textPtr == 0 && chBuf[nChars] == 0 && chBuf[nChars + 1] == 0
      ensures chBuf[..nChars] == old(chBuf[..nChars])
    {
      chBuf[nChars] := 0;
      chBuf[nChars + 1] := 0;
      textPtr := 0;
    }

    /** The first half of yy_get_next_buffer: the text moves to the start of the buffer and, unless the
        end of the file is already known, more is read after it. */
    method Reload(numberToMove: nat, ghost rest: seq<byte>)
      requires Sized() && textPtr + numberToMove == nChars && rest == Rest(textPtr)
      modifies this`chBuf, this`bufSize, this`bufChars, this`delivered, this`nChars, chBuf
      ensures bufSize >= 1 && chBuf.Length == bufSize + 2 && numberToMove + nChars <= bufSize
      ensures chBuf == old(chBuf) || fresh(chBuf)
      ensures old(delivered) <= delivered <= |input|
      ensures nChars == 0 <==> old(delivered) == |input|
      ensures nChars > 0 ==> delivered > old(delivered)
      ensures chBuf[..numberToMove + nChars] + input[delivered..] == rest
    {
      MoveText(numberToMove);
      assert chBuf[..numberToMove] + input[delivered..] == rest;
      if status == EofPending {
        bufChars, nChars := 0, 0;
      } else {
        var n := Refill(numberToMove);
        assert input[old(delivered)..delivered] + input[delivered..] == input[old(delivered)..];
      }
    }

    /** yy_get_next_buffer, called with the `k` characters of the current text not yet matched
        completely: they move to the start of the buffer and new text is read after them. */
    method GetNextBuffer(ghost rest: seq<byte>, ghost k: nat) returns (action: EobAction)
      requires Sized() && textPtr + k == nChars && cBufP == nChars + 1 && rest == Rest(textPtr)
      requires status != BufferNew
      modifies this`chBuf, this`bufSize, this`bufChars, this`status, this`delivered, this`nChars, this`cBufP,
        this`textPtr, this`hold, chBuf
      ensures textPtr == 0 && Closed() && rest == Rest(0)
      ensures chBuf == old(chBuf) || fresh(chBuf)
      ensures delivered >= old(delivered)
      ensures action.EndOfFile? ==> rest == [] && cBufP == 0 && nChars == 0 && hold == 0
      ensures action.LastMatch? ==> delivered == |input| && nChars == k > 0 && status == EofPending
      ensures action.ContinueScan? ==> nChars > k && delivered > old(delivered) && status == old(status)
    {
      var numberToMove := cBufP - textPtr - 1;
      Reload(numberToMove, rest);
      if nChars == 0 {
        if numberToMove == 0 {
          action := EndOfFile;
          Restart();
        } else {
          action := LastMatch;
          status := EofPending;
        }
      } else {
        action := ContinueScan;
      }
      nChars := nChars + numberToMove;
      Close();
    }

    // ----------------------------------------------------------------------------------------
    // Actions
    // ----------------------------------------------------------------------------------------

    /** `k` characters of `rest` lead to `state` and nothing longer is accepted: its action, or the
        one on record, is due. */
    ghost predicate Due(rest: seq<byte>, start: nat, k: nat, state: int)
      reads this
    {
      && Valid(t) && 1 <= k <= |rest| && state == Run(t, rest[..k]) && NoMore(t, rest, k)
      && (Accepts(t, rest[..k]) == 0 ==> Recorded(t, rest, k, start, lastState, lastCpos))
    }

    /** yy_find_action: the action of the state, or of the one on record if the state has none. */
    method FindAction(start: nat, ghost rest: seq<byte>, state: int, at: nat, ghost ended: bool)
      returns (act: int, cp: nat)
      requires Valid(t) && start <= at
      requires !ended ==> Due(rest, start, at - start, state)
      requires ended ==> start + 2 <= at && AtEnd(start, at - 2 - start, state)
      ensures !ended ==> rest != [] && 1 <= Longest(t, rest) && cp == start + Longest(t, rest)
      ensures !ended ==> act == Accepts(t, rest[..Longest(t, rest)]) && act != t.endOfBuffer
      ensures ended ==> act == t.endOfBuffer && cp == at - 1
      ensures cp <= at
    {
      hide Run, LongestUpTo, Longest, NoMore, Recorded, Accepts;
      if !ended {
        BestMatch(t, rest, at - start, start, lastState, lastCpos, state);
      }
      Facts(t, t.eob);
      Facts(t, state);
      hide Valid;
      act, cp := t.accept[state], at;
      if act == 0 {
        cp := lastCpos;
        act := t.accept[lastState];
      }
    }

    /** A NUL that belongs to the input, after `k` characters of the current text. */
    method PassNul(ghost rest: seq<byte>) returns (resume: Resume)
      requires Valid(t) && Closed() && textPtr <= cBufP < nChars && rest == Rest(textPtr) && chBuf[cBufP] == 0
      modifies this`lastState, this`lastCpos, this`cBufP
      ensures !resume.Finished? && textPtr <= cBufP <= nChars
      ensures resume.Rematch? ==> cBufP == old(cBufP) + 1 && Matching(rest, textPtr, cBufP - textPtr, resume.state)
      ensures resume.TakeAction? ==> cBufP == old(cBufP) && Due(rest, textPtr, cBufP - textPtr, resume.state)
    {
      hide Run, LongestUpTo, NoMore, Recorded, Accepts;
      var state := PreviousState(rest);
      var next := TryNul(state, rest);
      NulResult(t, rest, cBufP - textPtr, textPtr, lastState, lastCpos, next);
      hide Valid;
      if next != 0 {
        cBufP := cBufP + 1;
        resume := Rematch(next);
      } else {
        resume := TakeAction(state);
      }
    }

    /** When all that is left is matched, nothing longer can be. */
    lemma DueAtEnd(rest: seq<byte>, k: nat, state: int)
      requires Closed() && textPtr == 0 && nChars == k > 0 && delivered == |input| && rest == Rest(0)
      requires Matching(rest, textPtr, k, state)
      ensures Due(rest, textPtr, k, state)
    {
      hide Run, LongestUpTo, Recorded, Accepts, Valid;
      assert |rest| == k;
    }

    /** The end of the buffered text, `k` characters into the current text: read more if there is more. */
    method ReadOn(ghost rest: seq<byte>, ghost k: nat) returns (resume: Resume)
      requires Valid(t) && Closed() && textPtr + k == nChars && cBufP == nChars + 1
      requires rest == Rest(textPtr) && status != BufferNew
      modifies this`chBuf, this`bufSize, this`bufChars, this`status, this`delivered, this`nChars, this`cBufP,
        this`textPtr, this`hold, this`lastState, this`lastCpos, chBuf
      ensures chBuf == old(chBuf) || fresh(chBuf)
      ensures Closed() && textPtr <= cBufP <= nChars && rest == Rest(textPtr)
      ensures resume.Finished? ==> rest == [] && cBufP == nChars && hold == 0
      ensures resume.Rematch? ==>
        delivered > old(delivered) && cBufP - textPtr == k && Matching(rest, textPtr, k, resume.state)
      ensures resume.TakeAction? ==>
        delivered >= old(delivered) && cBufP - textPtr == k && Due(rest, textPtr, k, resume.state)
    {
      hide Run, LongestUpTo, Recorded, Accepts, Valid, Matching, Due;
      var amountMatched := cBufP - textPtr - 1;
      var action := GetNextBuffer(rest, k);
      match action
      case EndOfFile =>
        cBufP := textPtr;
        resume := Finished;
      case ContinueScan =>
        cBufP := textPtr + amountMatched;
        var state := PreviousState(rest);
        resume := Rematch(state);
      case LastMatch =>
        cBufP := nChars;
        var state := PreviousState(rest);
        DueAtEnd(rest, k, state);
        resume := TakeAction(state);
    }

    /** The end-of-buffer action, `k` characters into the current text. */
    method EndAction(ghost rest: seq<byte>, ghost k: nat) returns (resume: Resume)
      requires Valid(t) && Closed() && textPtr + k <= nChars && cBufP == textPtr + k + 1
      requires rest == Rest(textPtr) && chBuf[textPtr + k] == 0
      modifies this`chBuf, this`bufSize, this`bufChars, this`status, this`delivered, this`nChars, this`cBufP,
        this`textPtr, this`hold, this`lastState, this`lastCpos, chBuf
      ensures chBuf == old(chBuf) || fresh(chBuf)
      ensures Closed() && textPtr <= cBufP <= nChars && rest == Rest(textPtr)
      ensures resume.Finished? ==> rest == [] && Ready() && Unread() == []
      ensures resume.Rematch? ==> Matching(rest, textPtr, cBufP - textPtr, resume.state)
      ensures !resume.Finished? ==>
        delivered > old(delivered) || (delivered == old(delivered) && cBufP - textPtr >= k)
      ensures resume.Rematch? && delivered == old(delivered) ==> cBufP - textPtr > k
      ensures resume.TakeAction? ==> Due(rest, textPtr, cBufP - textPtr, resume.state)
    {
      hide Matching, Due, Valid;
      if status == BufferNew {
        nChars := bufChars;
        status := BufferNormal;
      }
      if cBufP <= nChars {
        cBufP := cBufP - 1;
        resume := PassNul(rest);
      } else {
        resume := ReadOn(rest, k);
      }
    }

    // ----------------------------------------------------------------------------------------
    // The scanner
    // ----------------------------------------------------------------------------------------

    /** YY_DO_BEFORE_ACTION and the action: `rest` up to `cp` is matched and the next character held. */
    method Fire(act: int, bp: nat, cp: nat, ghost rest: seq<byte>)
      requires Valid(t) && Closed() && bp <= cp <= nChars && rest == Rest(bp)
      modifies this`textPtr, this`hold, this`cBufP, this`matches, chBuf
      ensures Ready() && Unread() == rest[cp - bp..]
      ensures matches == old(matches) + [LongestMatch.Match(act, rest[..cp - bp])]
    {
      hide Valid;
      assert chBuf[bp..cp] == rest[..cp - bp];
      assert rest[cp - bp..] == chBuf[cp..nChars] + input[delivered..];
      matches := matches + [LongestMatch.Match(act, chBuf[bp..cp])];
      textPtr := bp;
      hold := chBuf[cp];
      chBuf[cp] := 0;
      cBufP := cp;
    }

    /** The start of a match: the held character returns to the buffer. */
    method Unhold(ghost rest: seq<byte>)
      requires Ready() && rest == Unread()
      modifies chBuf
      ensures Closed() && Cursor(rest, cBufP, START, cBufP, false)
    {
      hide Run, Recorded, Valid;
      chBuf[cBufP] := hold;
      assert Rest(cBufP) == rest;
      RunStart(t, rest);
    }

    /** Matches until an action is due or an end-of-buffer character is met. */
    method MatchOn(start: nat, from: int, at: nat, ghost rest: seq<byte>)
      returns (state: int, cp: nat, ghost ended: bool)
      requires Cursor(rest, start, from, at, false)
      modifies this`lastState, this`lastCpos
      ensures Closed() && start <= nChars && rest == Rest(start)
      ensures !ended ==> start <= cp <= nChars && Due(rest, start, cp - start, state)
      ensures ended ==> at + 2 <= cp <= nChars + 2 && AtEnd(start, cp - 2 - start, state)
    {
      hide Run, Recorded, Accepts;
      state, cp, ended := Match(start, from, at, rest);
      if !ended {
        StopsAll(t, rest, cp - start);
      }
    }

    /** Where a match stands between the rounds of the loop that looks for it. */
    ghost predicate Standing(rest: seq<byte>, start: nat, state: int, cp: nat, matching: bool)
      reads this, chBuf
    {
      && Valid(t) && Closed() && start <= cp <= nChars && rest == Rest(start)
      && (if matching then Matching(rest, start, cp - start, state) else Due(rest, start, cp - start, state))
    }

    /** One round: match on, then act, or see to an end-of-buffer character and say how to go on. */
    method Round(start: nat, from: int, at: nat, matching: bool, ghost rest: seq<byte>)
      returns (fired: bool, resume: Resume)
      requires Standing(rest, start, from, at, matching)
      modifies this, chBuf
      ensures chBuf == old(chBuf) || fresh(chBuf)
      ensures fired ==> Ready() && rest != [] && 1 <= Longest(t, rest) && Unread() == rest[Longest(t, rest)..]
      ensures fired ==> var n := Longest(t, rest);
        matches == old(matches) + [LongestMatch.Match(Accepts(t, rest[..n]), rest[..n])]
      ensures !fired ==> matches == old(matches)
      ensures !fired && resume.Finished? ==> rest == [] && Ready() && Unread() == []
      ensures !fired && resume.Rematch? ==> Standing(rest, textPtr, resume.state, cBufP, true)
      ensures !fired && resume.TakeAction? ==> Standing(rest, textPtr, resume.state, cBufP, false)
      ensures !fired && !resume.Finished? ==>
        || delivered > old(delivered)
        || (delivered == old(delivered) && cBufP - textPtr > at - start)
        || (delivered == old(delivered) && cBufP - textPtr == at - start && resume.TakeAction? && matching)
    {
      hide Run, Recorded, Accepts, NoMore, Longest, LongestUpTo, Valid, Matching, Due, Ready, Unread;
      var state: int, cp: nat := from, at;
      ghost var ended := false;
      if matching {
        state, cp, ended := MatchOn(start, from, at, rest);
      }
      var act;
      act, cp := FindAction(start, rest, state, cp, ended);
      if act != t.endOfBuffer {
        Fire(act, start, cp, rest);
        return true, Finished;
      }
      textPtr, cBufP := start, cp;
      resume := EndAction(rest, cp - 1 - start);
      return false, resume;
    }

    /** One action: the longest match of what is unread, or nothing at the end of the input. */
    method NextMatch(ghost rest: seq<byte>) returns (finished: bool)
      requires Ready() && rest == Unread()
      modifies this, chBuf
      ensures chBuf == old(chBuf) || fresh(chBuf)
      ensures Ready()
      ensures finished ==> rest == [] && Unread() == [] && matches == old(matches)
      ensures !finished ==> rest != [] && 1 <= Longest(t, rest) && Unread() == rest[Longest(t, rest)..]
      ensures !finished ==> var n := Longest(t, rest);
        matches == old(matches) + [LongestMatch.Match(Accepts(t, rest[..n]), rest[..n])]
    {
      hide Valid, Run, Accepts, Longest, Matching, Due;
      Unhold(rest);
      var bp: nat, cp: nat := cBufP, cBufP;
      var state := START;
      var matching := true;
      while true
        invariant chBuf == old(chBuf) || fresh(chBuf)
        invariant Standing(rest, bp, state, cp, matching)
        invariant matches == old(matches)
        decreases |input| - delivered, bp + |rest| - cp, matching
      {
        var fired, resume := Round(bp, state, cp, matching, rest);
        if fired {
          return false;
        }
        if resume.Finished? {
          return true;
        }
        bp, cp, state, matching := textPtr, cBufP, resume.state, resume.Rematch?;
      }
    }

    /** yylex: takes actions until the input is used up. Whatever sizes the chunks delivered by YY_INPUT
        had, the actions taken are the longest matches of the unread input, in order. */
    method Yylex()
      requires Ready()
      modifies this, chBuf
      ensures Ready() && Unread() == []
      ensures matches == old(matches) + Matches(t, old(Unread()))
    {
      hide Accepts, Longest, Unread;
      ghost var rest := Unread();
      ghost var before := matches;
      assert before + Matches(t, rest) == old(matches) + Matches(t, old(Unread()));
      while true
        invariant chBuf == old(chBuf) || fresh(chBuf)
        invariant Ready() && rest == Unread()
        invariant matches + Matches(t, rest) == old(matches) + Matches(t, old(Unread()))
        decreases |rest|
      {
        var finished := NextMatch(rest);
        if finished {
          return;
        }
        MatchesStep(t, rest);
        rest := rest[Longest(t, rest)..];
      }
    }
  }

  /** No prefix is accepted beyond a state that ends the matching loop. */
  lemma StopsAll(t: Tables, rest: seq<byte>, k: nat)
    requires Valid(t) && k <= |rest| && Stops(t, Run(t, rest[..k]))
    ensures NoMore(t, rest, k)
  {
    forall m | k < m <= |rest| ensures Accepts(t, rest[..m]) == 0 {
      StopsBeyond(t, rest, k, m);
    }
  }

  /** After a NUL either the automaton is in the state it leads to, or nothing longer is accepted. */
  lemma NulResult(t: Tables, rest: seq<byte>, k: nat, start: int, lastState: int, lastCpos: int, next: int)
    requires Valid(t) && k < |rest| && Recorded(t, rest, k + 1, start, lastState, lastCpos)
    requires if Run(t, rest[..k + 1]) == t.jam then next == 0 else next == Run(t, rest[..k + 1])
    ensures next == 0 ==> k >= 1 && NoMore(t, rest, k)
    ensures next == 0 && Accepts(t, rest[..k]) == 0 ==> Recorded(t, rest, k, start, lastState, lastCpos)
    ensures next != 0 ==> next == Run(t, rest[..k + 1])
  {
    if next == 0 {
      Facts(t, t.jam);
      SingleAccepted(t, rest);
      forall m | k < m <= |rest| ensures Accepts(t, rest[..m]) == 0 {
        JamStays(t, rest, k + 1, m);
      }
    }
  }

  /** What yy_find_action relies on: the state's own match or the recorded one is the longest. */
  lemma BestMatch(t: Tables, rest: seq<byte>, k: nat, start: nat, lastState: int, lastCpos: int, state: int)
    requires Valid(t) && 1 <= k <= |rest| && state == Run(t, rest[..k]) && NoMore(t, rest, k)
    requires Accepts(t, rest[..k]) == 0 ==> Recorded(t, rest, k, start, lastState, lastCpos)
    ensures 1 <= state <= t.jam && 0 <= state < |t.accept|
    ensures 1 <= Longest(t, rest) <= k
    ensures if t.accept[state] != 0 then Longest(t, rest) == k && Accepts(t, rest[..k]) == t.accept[state]
            else
              && lastCpos == start + Longest(t, rest) && 0 <= lastState < |t.accept|
              && Accepts(t, rest[..Longest(t, rest)]) == t.accept[lastState]
    ensures Accepts(t, rest[..Longest(t, rest)]) != t.endOfBuffer
  {
    LongestIs(t, rest);
    var n := Longest(t, rest);
    Facts(t, Run(t, rest[..n]));
    if t.accept[state] != 0 {
      assert IsLongest(t, rest, k);
    } else {
      SingleAccepted(t, rest);
      LongestUpToIs(t, rest, k - 1);
      assert IsLongest(t, rest, LongestUpTo(t, rest, k - 1));
    }
  }

  lemma RunStart(t: Tables, rest: seq<byte>)
    requires Valid(t)
    ensures Run(t, rest[..0]) == START && forall start, s, e :: Recorded(t, rest, 0, start, s, e)
  {
  }

  /** A NUL of the input counts as class 1. */
  lemma NulClass(t: Tables, state: int)
    requires Valid(t) && 1 <= state <= t.jam
    ensures In(t, state, 1) && ClassOf(t, 0) == 1
  {
    assert GoodCharacter(t, 1);
  }

  /** The matching loop ends in this state. */
  ghost predicate Stops(t: Tables, state: int) {
    0 <= state < |t.base| && t.base[state] == t.jamBase
  }

  /** Recording the state before a character keeps the record right for one character more. */
  lemma OneMore(t: Tables, rest: seq<byte>, k: nat, start: int, state: int, end: int)
    requires Valid(t) && k < |rest| && Recorded(t, rest, k, start, state, end)
    ensures var s := Run(t, rest[..k]);
      && Run(t, rest[..k + 1]) == Next(t, s, ClassOf(t, rest[k]))
      && (if t.accept[s] != 0 then Recorded(t, rest, k + 1, start, s, start + k)
          else Recorded(t, rest, k + 1, start, state, end))
  {
    RunStep(t, rest, k);
    if k == 0 {
      NothingAccepted(t);
      assert rest[..0] == [];
    }
  }

  lemma Ranges(t: Tables, state: int, x: byte)
    requires Valid(t) && 1 <= state <= t.jam
    ensures 0 <= Ec(t, x) < |t.meta| && (Ec(t, x) == 0 <==> x == 0) && In(t, state, Ec(t, x))
    ensures 0 <= state < |t.accept| == t.jam + 1 && 1 <= t.eob < t.jam
    ensures x != 0 ==> ClassOf(t, x) == Ec(t, x)
  {
    assert GoodCharacter(t, x);
  }

  lemma Facts(t: Tables, state: int)
    requires Valid(t) && 1 <= state <= t.jam
    ensures |t.accept| == t.jam + 1 < |t.base| + 1 && t.base[t.jam] == t.jamBase && t.base[t.eob] != t.jamBase
    ensures t.accept[state] == t.endOfBuffer <==> state == t.eob
    ensures t.accept[t.jam] == 0 && t.endOfBuffer > 0
  {
    assert GoodAccept(t, state);
  }
}
