/** Replacing characters of more than one byte by plain ASCII, and replacing them back. */
module AsciiCodec {

  import opened Bytes

  const NEWLINE: byte := 10
  const ZERO: byte := 48

  /** "nonascii", and what follows its first letter. */
  const MARKER: seq<byte> := [110, 111, 110, 97, 115, 99, 105, 105]
  const REST: seq<byte> := [111, 110, 97, 115, 99, 105, 105]

  // ------------------------------------------------------------------------------------------
  // The encoder
  // ------------------------------------------------------------------------------------------

  /** How many of the bits from `x` down are set, up to the first that is not. */
  function LeadingOnes(ch: int, x: nat): nat {
    if x > 0 && ch >= x then 1 + LeadingOnes(ch - x, x / 2) else 0
  }

  lemma {:induction false} OnesBound(ch: int, x: nat, bits: nat)
    requires (x, bits) in {(0, 0), (1, 1), (2, 2), (4, 3), (8, 4), (16, 5), (32, 6), (64, 7), (128, 8)}
    ensures LeadingOnes(ch, x) <= bits
    decreases bits
  {
    if x > 0 && ch >= x {
      OnesBound(ch - x, x / 2, bits - 1);
    }
  }

  function NoOfBytes(ch: byte): (n: nat)
    ensures 1 <= n <= 8
  {
    OnesBound(ch, 128, 8);
    if ch < 128 then 1 else LeadingOnes(ch, 128)
  }

  /** Counts the leading ones by taking them away; for 255 the loop would go on to divide by zero. */
  method CountBytes(c: byte) returns (count: nat)
    requires c < 255
    ensures count == NoOfBytes(c)
  {
    if c < 128 {
      return 1;
    }
    var ch: int, x: int := c, 128;
    count := 0;
    while ch / x >= 1 && ch > 0 && x > 0
      invariant x in {128, 64, 32, 16, 8, 4, 2, 1} && 0 <= ch < 2 * x - 1
      invariant count + LeadingOnes(ch, x) == LeadingOnes(c, 128)
      decreases x
    {
      count := count + 1;
      ch := ch - x;
      x := x / 2;
    }
  }

  /** A byte, or -1 at the end of the input, in decimal. */
  function Decimal(c: int): (d: seq<byte>)
    requires -1 <= c < 256
    ensures 100 <= c ==> |d| == 3
  {
    if c < 0 then [45, 49]
    else if c < 10 then [ZERO + c]
    else if c < 100 then [ZERO + c / 10, ZERO + c % 10]
    else [ZERO + c / 100, ZERO + c / 10 % 10, ZERO + c % 10]
  }

  /** The decimals of the next `n` bytes; past the end the input yields -1. */
  function Decimals(t: seq<byte>, n: nat): seq<byte> {
    if n == 0 then []
    else Decimal(if t == [] then -1 else t[0]) + Decimals(if t == [] then [] else t[1..], n - 1)
  }

  /** The bytes written, a fault of the program, or a run that does not end. */
  datatype Outcome = Done(bytes: seq<byte>) | Fault | Endless

  function Before(front: seq<byte>, o: Outcome): Outcome {
    if o.Done? then Done(front + o.bytes) else o
  }

  function Drop(t: seq<byte>, n: nat): seq<byte> { if n <= |t| then t[n..] else [] }

  /** What the encoder writes: one-byte characters as they are, others as marker, length and decimals. A byte 255
      that starts a character stops it with a division by zero. */
  function Encoded(t: seq<byte>): Outcome
    decreases |t|
  {
    if t == [] then Done([])
    else if t[0] == 255 then Fault
    else
      var n := NoOfBytes(t[0]);
      if n <= 1 then Before([t[0]], Encoded(t[1..]))
      else Before(MARKER + Decimal(n) + Decimals(t, n), Encoded(Drop(t, n)))
  }

  lemma DecimalsSplit(t: seq<byte>, n: nat)
    requires n > 0
    ensures Decimals(t, n) == Decimal(if t == [] then -1 else t[0]) + Decimals(Drop(t, 1), n - 1)
  {
  }

  /** One byte fewer to write. */
  lemma NextDecimal(t: seq<byte>, pos: nat, n: nat)
    requires pos <= |t| && n > 0
    ensures pos < |t| ==> Decimals(t[pos..], n) == Decimal(t[pos]) + Decimals(t[pos + 1..], n - 1)
    ensures pos < |t| ==> Drop(t[pos..], n) == Drop(t[pos + 1..], n - 1)
    ensures pos == |t| ==> Decimals(t[pos..], n) == Decimal(-1) + Decimals(t[pos..], n - 1)
    ensures pos == |t| ==> Drop(t[pos..], n) == Drop(t[pos..], n - 1)
  {
    if pos < |t| {
      assert t[pos..][1..] == t[pos + 1..];
      assert n <= |t[pos..]| ==> t[pos..][n..] == t[pos + 1..][n - 1..];
    }
  }

  /** Reads the input from `pos` on and writes the decimals of `n` bytes. */
  method WriteDecimals(t: seq<byte>, start: nat, n: nat) returns (out: seq<byte>, pos: nat)
    requires start <= |t|
    ensures out == Decimals(t[start..], n)
    ensures start <= pos <= |t| && t[pos..] == Drop(t[start..], n)
  {
    hide Decimal, Decimals;
    out, pos := [], start;
    var i := 0;
    while i < n
      invariant 0 <= i <= n && start <= pos <= |t|
      invariant out + Decimals(t[pos..], n - i) == Decimals(t[start..], n)
      invariant Drop(t[pos..], n - i) == Drop(t[start..], n)
    {
      NextDecimal(t, pos, n - i);
      var c: int := -1;
      if pos < |t| {
        c := t[pos];
        pos := pos + 1;
      }
      assert out + (Decimal(c) + Decimals(t[pos..], n - i - 1)) == out + Decimal(c) + Decimals(t[pos..], n - i - 1);
      out := out + Decimal(c);
      i := i + 1;
    }
    NoDecimals(t[pos..]);
  }

  lemma NoDecimals(t: seq<byte>)
    ensures Decimals(t, 0) == [] && Drop(t, 0) == t
  {
  }

  method EncodeText(t: seq<byte>) returns (o: Outcome)
    ensures o == Encoded(t)
  {
    var out, pos := [], 0;
    assert t[0..] == t;
    while pos < |t|
      invariant 0 <= pos <= |t| && Before(out, Encoded(t[pos..])) == Encoded(t)
    {
      var c := t[pos];
      ghost var rest := t[pos..];
      assert rest[0] == c && rest[1..] == t[pos + 1..];
      if c == 255 {
        return Fault;
      }
      var n := CountBytes(c);
      if n == 1 {
        BeforeTwice(out, [c], Encoded(rest[1..]));
        out := out + [c];
        pos := pos + 1;
      } else {
        var decimals, next := WriteDecimals(t, pos, n);
        BeforeTwice(out, MARKER + Decimal(n) + decimals, Encoded(t[next..]));
        NextLater(t, pos, next, n);
        out := out + (MARKER + Decimal(n) + decimals);
        pos := next;
      }
    }
    assert t[pos..] == [];
    return Done(out);
  }

  lemma BeforeTwice(a: seq<byte>, b: seq<byte>, o: Outcome)
    ensures Before(a, Before(b, o)) == Before(a + b, o)
  {
    if o.Done? {
      assert a + (b + o.bytes) == a + b + o.bytes;
    }
  }

  lemma NextLater(t: seq<byte>, pos: nat, next: nat, n: nat)
    requires pos < |t| && next <= |t| && n > 0 && t[next..] == Drop(t[pos..], n)
    ensures pos < next
  {
    assert |t[next..]| == |t| - next && |t[pos..]| == |t| - pos;
  }

  // ------------------------------------------------------------------------------------------
  // UTF-8
  // ------------------------------------------------------------------------------------------

  /** The length of the sequence a lead byte starts (section 3 of RFC 3629); 0 for a byte that starts none. */
  function Utf8Length(lead: byte): nat {
    if lead < 0x80 then 1
    else if 0xC2 <= lead <= 0xDF then 2
    else if 0xE0 <= lead <= 0xEF then 3
    else if 0xF0 <= lead <= 0xF4 then 4
    else 0
  }

  /** The text starts with a well-formed character (section 4 of RFC 3629). */
  predicate Character(t: seq<byte>) {
    && t != [] && 0 < Utf8Length(t[0]) <= |t|
    && (forall i :: 1 <= i < Utf8Length(t[0]) ==> 0x80 <= t[i] <= 0xBF)
    && (t[0] == 0xE0 ==> t[1] >= 0xA0) && (t[0] == 0xED ==> t[1] <= 0x9F)
    && (t[0] == 0xF0 ==> t[1] >= 0x90) && (t[0] == 0xF4 ==> t[1] <= 0x8F)
  }

  predicate Utf8(t: seq<byte>)
    decreases |t|
  {
    t == [] || (Character(t) && Utf8(t[Utf8Length(t[0])..]))
  }

  /** The encoder counts the bytes of a character as UTF-8 does. */
  lemma LengthIs(c: byte)
    requires Utf8Length(c) > 0
    ensures NoOfBytes(c) == Utf8Length(c)
  {
    if c >= 128 {
      assert LeadingOnes(c, 128) == 1 + LeadingOnes(c - 128, 64) == 2 + LeadingOnes(c - 192, 32);
      if c >= 0xE0 {
        assert LeadingOnes(c - 192, 32) == 1 + LeadingOnes(c - 224, 16);
        if c >= 0xF0 {
          assert LeadingOnes(c - 224, 16) == 1 + LeadingOnes(c - 240, 8);
        }
      }
    }
  }

  // ------------------------------------------------------------------------------------------
  // The decoder
  // ------------------------------------------------------------------------------------------

  /** How many bytes fgets takes when it may take `k`: up to and with the next newline, or to the end. */
  function ReadLength(input: seq<byte>, pos: nat, k: nat): (n: nat)
    ensures n <= k && (pos <= |input| ==> pos + n <= |input|) && (n == 0 <==> k == 0 || pos >= |input|)
    decreases k
  {
    if k == 0 || pos >= |input| then 0
    else if input[pos] == NEWLINE then 1
    else 1 + ReadLength(input, pos + 1, k - 1)
  }

  /** The string a buffer holds: all before the first zero. */
  function CString(s: seq<byte>): seq<byte> {
    if s == [] || s[0] == 0 then [] else [s[0]] + CString(s[1..])
  }

  function IsDigit(c: byte): bool { ZERO <= c <= 57 }

  function Digits(s: seq<byte>, value: nat): nat {
    if s == [] || !IsDigit(s[0]) then value else Digits(s[1..], 10 * value + (s[0] - ZERO))
  }

  /** White space skipped, an optional sign, then decimal digits. */
  function Atoi(s: seq<byte>): int {
    if s == [] then 0
    else if s[0] == 32 || 9 <= s[0] <= 13 then Atoi(s[1..])
    else if s[0] == 45 then -(Digits(s[1..], 0) as int)
    else if s[0] == 43 then Digits(s[1..], 0)
    else Digits(s, 0)
  }

  /** The two line buffers, with what is left in them from earlier reads. */
  datatype Buffers = Buffers(p: seq<byte>, t: seq<byte>)

  /** fgets into the eight bytes of `p`; nothing read leaves them as they were. */
  function GetsInto(input: seq<byte>, pos: nat, p: seq<byte>): (r: seq<byte>)
    requires pos <= |input| && |p| == 8
    ensures |r| == 8
  {
    var k := ReadLength(input, pos, 7);
    if k == 0 then p else input[pos..pos + k] + [0] + p[k + 1..]
  }

  /** The place of the first newline among the first seven bytes, or 7. */
  function NewlineAt(p: seq<byte>, sb: nat): (r: nat)
    requires |p| == 8 && sb <= 7
    ensures sb <= r <= 7 && (r < 7 ==> p[r] == NEWLINE) && forall i :: sb <= i < r ==> p[i] != NEWLINE
    decreases 7 - sb
  {
    if sb == 7 || p[sb] == NEWLINE then sb else NewlineAt(p, sb + 1)
  }

  /** fseek from the current position; before the start it fails and stays. */
  function Seek(pos: nat, offset: int): nat { if pos + offset < 0 then pos else pos + offset }

  datatype Effect = Effect(pos: nat, buffers: Buffers, out: seq<byte>) | Overflow

  /** One character read and put out again; at the end the byte put out is 255. */
  function PutNext(input: seq<byte>, pos: nat, b: Buffers): Effect {
    if pos < |input| then Effect(pos + 1, b, [input[pos]]) else Effect(pos, b, [255])
  }

  /** `n` numbers of up to three characters, kept as bytes. */
  function Numbers(input: seq<byte>, pos: nat, n: nat, t: seq<byte>): (seq<byte>, seq<byte>, nat)
    requires pos <= |input|
    decreases n
  {
    if n == 0 then ([], t, pos)
    else
      var k := ReadLength(input, pos, 3);
      var read := if k == 0 then t else CString(input[pos..pos + k]);
      var (a, last, end) := Numbers(input, pos + k, n - 1, read);
      ([Atoi(read) % 256] + a, last, end)
  }

  /** One turn of the decoder's loop at a character. More than six numbers would overflow the array for them. */
  function Turn(input: seq<byte>, pos: nat, b: Buffers): Effect
    requires pos < |input| && |b.p| == 8
  {
    if input[pos] != MARKER[0] then Effect(pos + 1, b, [input[pos]])
    else
      var p := GetsInto(input, pos + 1, b.p);
      var next := pos + 1 + ReadLength(input, pos + 1, 7);
      var sb := NewlineAt(p, 0);
      var now := Buffers(p, b.t);
      if sb < 7 then PutNext(input, Seek(next, -2 - sb), now)
      else if CString(p) != REST then PutNext(input, Seek(next, -8), now)
      else
        var n := if next < |input| then input[next] - ZERO else -1 - ZERO;
        var after := if next < |input| then next + 1 else next;
        if n > 6 then Overflow
        else if n <= 0 then Effect(after, now, [])
        else
          var (a, t, end) := Numbers(input, after, n, b.t);
          Effect(end, Buffers(p, t), CString(a))
  }

  // ------------------------------------------------------------------------------------------
  // Runs of the decoder
  // ------------------------------------------------------------------------------------------

  predicate EndsLine(t: seq<byte>) { t == [] || t[|t| - 1] == NEWLINE }

  predicate MarkerAt(t: seq<byte>, i: nat) { i + 8 <= |t| && t[i..i + 8] == MARKER }

  predicate NoMarker(t: seq<byte>) { forall i :: 0 <= i < |t| ==> !MarkerAt(t, i) }

  /** No newline stands from `i` on. */
  predicate LastLine(t: seq<byte>, i: nat) { forall j :: i <= j < |t| ==> t[j] != NEWLINE }

  /** An "n" in the last line with fewer than seven bytes behind it: the read for the rest of the marker falls short. */
  predicate Dry(t: seq<byte>, i: nat) { i < |t| <= i + 7 && t[i] == MARKER[0] && LastLine(t, i) }

  lemma {:induction false} ReadLengthIs(input: seq<byte>, pos: nat, k: nat)
    requires pos <= |input|
    ensures var n := ReadLength(input, pos, k);
      (forall i :: pos <= i < pos + n - 1 ==> input[i] != NEWLINE)
      && (n < k ==> pos + n == |input| || (n > 0 && input[pos + n - 1] == NEWLINE))
    decreases k
  {
    if k > 0 && pos < |input| && input[pos] != NEWLINE {
      ReadLengthIs(input, pos + 1, k - 1);
    }
  }

  lemma {:induction false} FullRead(input: seq<byte>, pos: nat, k: nat)
    requires pos + k <= |input| && forall i :: pos <= i < pos + k ==> input[i] != NEWLINE
    ensures ReadLength(input, pos, k) == k
    decreases k
  {
    if k > 0 {
      FullRead(input, pos + 1, k - 1);
    }
  }

  lemma {:induction false} CStringIs(s: seq<byte>, rest: seq<byte>)
    requires forall i :: 0 <= i < |s| ==> s[i] != 0
    ensures CString(s + [0] + rest) == s && CString(s) == s
  {
    if s != [] {
      CStringIs(s[1..], rest);
      assert (s + [0] + rest)[1..] == s[1..] + [0] + rest;
    } else {
      assert ([] + [0] + rest)[0] == 0;
    }
  }

  lemma {:induction false} CStringPrefix(s: seq<byte>)
    ensures |CString(s)| <= |s| && CString(s) == s[..|CString(s)|]
  {
    if s != [] && s[0] != 0 {
      CStringPrefix(s[1..]);
    }
  }

  /** The buffer holds the marker's rest exactly when the input goes on with it. */
  lemma RestIs(w: seq<byte>, p: seq<byte>)
    requires |w| == 7 && p == w + [0]
    ensures CString(p) == REST <==> w == REST
  {
    CStringPrefix(p);
    if w == REST {
      CStringIs(w, []);
      assert w + [0] + [] == p;
    }
    if CString(p) == REST {
      assert p[..7] == w;
    }
  }

  /** A turn at anything but the marker passes one byte on, unless the input runs dry there. */
  lemma TurnCopies(input: seq<byte>, pos: nat, b: Buffers)
    requires pos < |input| && |b.p| == 8 && !MarkerAt(input, pos) && !Dry(input, pos)
    ensures Turn(input, pos, b).Effect? && |Turn(input, pos, b).buffers.p| == 8
    ensures Turn(input, pos, b).pos == pos + 1 && Turn(input, pos, b).out == [input[pos]]
    ensures CString(b.p) != REST ==> CString(Turn(input, pos, b).buffers.p) != REST
  {
    if input[pos] == MARKER[0] {
      hide CString, NewlineAt, GetsInto;
      ReadsOn(input, pos, b.p);
    }
  }

  /** What the buffer holds after the read behind an "n" that does not begin the marker: a newline at the end of what
      was read, or seven characters that are not the marker's rest. */
  lemma ReadsOn(input: seq<byte>, pos: nat, was: seq<byte>)
    requires pos < |input| && |was| == 8 && input[pos] == MARKER[0] && !MarkerAt(input, pos) && !Dry(input, pos)
    ensures var k, p := ReadLength(input, pos + 1, 7), GetsInto(input, pos + 1, was);
      && 1 <= k <= 7 && pos + 1 + k <= |input| && CString(p) != REST
      && (if input[pos + k] == NEWLINE then NewlineAt(p, 0) == k - 1 else k == 7 && NewlineAt(p, 0) == 7)
  {
    hide CString, GetsInto;
    var k, p := ReadLength(input, pos + 1, 7), GetsInto(input, pos + 1, was);
    ReadLengthIs(input, pos + 1, 7);
    GotFrom(input, pos + 1, was);
    if input[pos + k] == NEWLINE {
      assert p[k - 1] == NEWLINE;
      assert NewlineAt(p, 0) == k - 1;
      OtherRest(p, k - 1);
    } else {
      var w := input[pos + 1..pos + 8];
      assert p == w + [0];
      RestIs(w, p);
      assert input[pos..pos + 8] == [input[pos]] + w && MARKER == [MARKER[0]] + REST;
    }
  }

  lemma OtherRest(p: seq<byte>, i: nat)
    requires i < 7 <= |p| && p[i] != REST[i]
    ensures CString(p) != REST
  {
    CStringPrefix(p);
  }

  lemma GotFrom(input: seq<byte>, pos: nat, was: seq<byte>)
    requires pos < |input| && |was| == 8
    ensures var k, p := ReadLength(input, pos, 7), GetsInto(input, pos, was);
      && (forall i :: 0 <= i < k ==> p[i] == input[pos + i])
      && (k == 7 ==> p == input[pos..pos + 7] + [0])
  {
    hide ReadLength;
  }

  /** What a turn at the marker does with the digit and the numbers behind it. */
  lemma TurnDecodes(input: seq<byte>, pos: nat, b: Buffers)
    requires |b.p| == 8 && MarkerAt(input, pos) && pos + 8 < |input|
    ensures var n := input[pos + 8] - ZERO;
      if n > 6 then Turn(input, pos, b) == Overflow
      else
        && Turn(input, pos, b).Effect? && |Turn(input, pos, b).buffers.p| == 8
        && (n <= 0 ==> Turn(input, pos, b).pos == pos + 9 && Turn(input, pos, b).out == [])
        && (n > 0 ==> Turn(input, pos, b).pos == Numbers(input, pos + 9, n, b.t).2)
        && (n > 0 ==> Turn(input, pos, b).out == CString(Numbers(input, pos + 9, n, b.t).0))
  {
    hide CString, NewlineAt, Numbers;
    var w := input[pos..pos + 8];
    assert input[pos] == w[0] && forall i :: 0 <= i < 8 ==> input[pos + i] == MARKER[i];
    assert input[pos + 7] != NEWLINE;
    FullRead(input, pos + 1, 7);
    var p := GetsInto(input, pos + 1, b.p);
    assert p == input[pos + 1..pos + 8] + [0];
    assert input[pos + 1..pos + 8] == REST;
    RestIs(REST, p);
  }

  /** The marker at the very end of the input is passed over. */
  lemma MarkerEnds(input: seq<byte>, pos: nat, b: Buffers)
    requires |b.p| == 8 && MarkerAt(input, pos) && pos + 8 == |input|
    ensures Turn(input, pos, b).Effect? && Turn(input, pos, b).pos == |input| && Turn(input, pos, b).out == []
  {
    hide CString, NewlineAt, Numbers;
    var w := input[pos..pos + 8];
    assert input[pos] == w[0] && forall i :: 0 <= i < 8 ==> input[pos + i] == MARKER[i];
    FullRead(input, pos + 1, 7);
    var p := GetsInto(input, pos + 1, b.p);
    assert p == input[pos + 1..pos + 8] + [0];
    assert input[pos + 1..pos + 8] == REST;
    RestIs(REST, p);
  }

  /** Where the input runs dry the read goes to its end, and what the buffer holds behind decides: a newline left
      there, or too few bytes to step back, or the marker's rest left from before. */
  lemma DryTurn(input: seq<byte>, pos: nat, b: Buffers)
    requires |b.p| == 8 && Dry(input, pos)
    ensures var k := |input| - pos - 1;
      var p := GetsInto(input, pos + 1, b.p);
      var sb := NewlineAt(p, 0);
      && |p| == 8 && ReadLength(input, pos + 1, 7) == k && sb > k - 1
      && (k > 0 ==> p == input[pos + 1..] + [0] + b.p[k + 1..])
      && (k == 0 ==> p == b.p)
      && Turn(input, pos, b) == if sb < 7 then PutNext(input, Seek(|input|, -2 - sb), Buffers(p, b.t))
                                else if CString(p) != REST then PutNext(input, Seek(|input|, -8), Buffers(p, b.t))
                                else Effect(|input|, Buffers(p, b.t), [])
  {
    hide CString;
    ReadLengthIs(input, pos + 1, 7);
    var k, p := |input| - pos - 1, GetsInto(input, pos + 1, b.p);
    assert input[pos + 1..pos + 1 + k] == input[pos + 1..];
    assert forall i :: 0 <= i < k ==> p[i] == input[pos + 1 + i];
  }

  /** No more than one byte is put out there. */
  lemma DryOut(input: seq<byte>, pos: nat, b: Buffers)
    requires |b.p| == 8 && Dry(input, pos)
    ensures Turn(input, pos, b).Effect? && |Turn(input, pos, b).out| <= 1
    ensures pos < Turn(input, pos, b).pos ==>
      Turn(input, pos, b).pos == |input| && Turn(input, pos, b).out in {[], [255]}
  {
    hide Turn, CString, NewlineAt, GetsInto;
    DryTurn(input, pos, b);
  }

  lemma {:induction false} NumbersEnd(input: seq<byte>, pos: nat, n: nat, t: seq<byte>)
    requires pos <= |input|
    ensures pos <= Numbers(input, pos, n, t).2 <= |input| && |Numbers(input, pos, n, t).0| == n
    decreases n
  {
    hide Numbers, CString, Atoi;
    if n == 0 {
      NoNumbers(input, pos, t);
    } else {
      NextNumber(input, pos, n, t);
      hide ReadLength;
      var k := ReadLength(input, pos, 3);
      NumbersEnd(input, pos + k, n - 1, if k == 0 then t else CString(input[pos..pos + k]));
    }
  }

  lemma TurnStays(input: seq<byte>, pos: nat, b: Buffers)
    requires pos < |input| && |b.p| == 8 && Turn(input, pos, b).Effect?
    ensures Turn(input, pos, b).pos <= |input| && |Turn(input, pos, b).buffers.p| == 8
  {
    hide CString, Numbers, NewlineAt;
    if input[pos] == MARKER[0] {
      var next := pos + 1 + ReadLength(input, pos + 1, 7);
      var n := if next < |input| then input[next] - ZERO else -1 - ZERO;
      if n > 0 { NumbersEnd(input, next + 1, n, b.t); }
    }
  }

  /** A turn that goes on puts out no more than it reads; the marker loses. */
  lemma TurnProgress(input: seq<byte>, pos: nat, b: Buffers)
    requires pos < |input| && |b.p| == 8 && Turn(input, pos, b).Effect?
    ensures Turn(input, pos, b).pos <= |input| && |Turn(input, pos, b).buffers.p| == 8
    ensures pos < Turn(input, pos, b).pos ==> |Turn(input, pos, b).out| <= Turn(input, pos, b).pos - pos
    ensures MarkerAt(input, pos) ==> |Turn(input, pos, b).out| < Turn(input, pos, b).pos - pos
  {
    hide Turn, CString, Numbers;
    TurnStays(input, pos, b);
    if MarkerAt(input, pos) && pos + 8 < |input| {
      TurnDecodes(input, pos, b);
      var n := input[pos + 8] - ZERO;
      if n > 0 {
        NumbersEnd(input, pos + 9, n, b.t);
        CStringPrefix(Numbers(input, pos + 9, n, b.t).0);
      }
    } else if MarkerAt(input, pos) {
      MarkerEnds(input, pos, b);
    } else if Dry(input, pos) {
      DryOut(input, pos, b);
    } else {
      TurnCopies(input, pos, b);
    }
  }

  /** What the decoder writes from a position on. When a turn steps back, or stays, the run does not end. */
  function Run(input: seq<byte>, pos: nat, b: Buffers): Outcome
    requires pos <= |input| && |b.p| == 8
    decreases |input| - pos
  {
    if pos == |input| then Done([])
    else
      match Turn(input, pos, b)
      case Overflow => Fault
      case Effect(next, buffers, out) =>
        TurnStays(input, pos, b);
        if pos < next then Before(out, Run(input, next, buffers)) else Endless
  }

  // ------------------------------------------------------------------------------------------
  // The round trip
  // ------------------------------------------------------------------------------------------

  /** An "n" in the last line with fewer than seven one-byte characters behind it, and no others. */
  predicate DryTail(t: seq<byte>, i: nat) { Dry(t, i) && forall j :: i <= j < |t| ==> t[j] < 128 }

  /** The texts the round trip is for. */
  predicate Plain(t: seq<byte>) { Utf8(t) && NoMarker(t) && forall i :: 0 <= i < |t| ==> !DryTail(t, i) }

  lemma {:induction false} DecimalsLength(t: seq<byte>, n: nat)
    requires n <= |t| && forall i :: 0 <= i < n ==> t[i] >= 100
    ensures |Decimals(t, n)| == 3 * n
  {
    if n > 0 {
      DecimalsLength(t[1..], n - 1);
    }
  }

  /** Three digits read back give the byte. */
  lemma AtoiDecimal(c: byte)
    requires c >= 100
    ensures Atoi(Decimal(c)) == c && CString(Decimal(c)) == Decimal(c)
    ensures forall i :: 0 <= i < 3 ==> Decimal(c)[i] != NEWLINE
  {
    var d := Decimal(c);
    NoZero(d);
    hide CString;
    assert d[1..] == [ZERO + c / 10 % 10, ZERO + c % 10] && d[1..][1..] == [ZERO + c % 10] && d[1..][1..][1..] == [];
    assert Digits(d[1..][1..][1..], c) == c;
    assert Digits(d[1..][1..], c / 10) == c;
    assert Digits(d[1..], c / 100) == c;
  }

  lemma NoZero(s: seq<byte>)
    requires forall i :: 0 <= i < |s| ==> s[i] > 0
    ensures CString(s) == s
  {
    CStringIs(s, []);
  }

  lemma NumbersStep(input: seq<byte>, pos: nat, n: nat, t: seq<byte>)
    requires pos + 3 <= |input| && ReadLength(input, pos, 3) == 3 && n > 0
    ensures var rest := Numbers(input, pos + 3, n - 1, CString(input[pos..pos + 3]));
      && Numbers(input, pos, n, t).0 == [Atoi(CString(input[pos..pos + 3])) % 256] + rest.0
      && Numbers(input, pos, n, t).2 == rest.2
  {
  }

  lemma Split3(s: seq<byte>, a: seq<byte>, b: seq<byte>, input: seq<byte>, pos: nat)
    requires s == a + b && |a| == 3 && pos + |s| <= |input| && input[pos..pos + |s|] == s
    ensures input[pos..pos + 3] == a && input[pos + 3..pos + 3 + |b|] == b
  {
    assert input[pos..pos + |s|][..3] == a;
    assert input[pos..pos + |s|][3..] == b;
  }

  lemma FirstRead(input: seq<byte>, pos: nat, bytes: seq<byte>, t: seq<byte>)
    requires bytes != [] && forall i :: 0 <= i < |bytes| ==> bytes[i] >= 100
    requires pos + 3 * |bytes| <= |input| && input[pos..pos + 3 * |bytes|] == Decimals(bytes, |bytes|)
    ensures pos + 3 + 3 * (|bytes| - 1) <= |input|
    ensures input[pos + 3..pos + 3 + 3 * (|bytes| - 1)] == Decimals(bytes[1..], |bytes| - 1)
    ensures var rest := Numbers(input, pos + 3, |bytes| - 1, CString(input[pos..pos + 3]));
      && Numbers(input, pos, |bytes|, t).0 == [bytes[0]] + rest.0
      && Numbers(input, pos, |bytes|, t).2 == rest.2
  {
    hide Decimal, Decimals, Numbers, ReadLength, CString, Atoi;
    DecimalsSplit(bytes, |bytes|);
    DecimalsLength(bytes, |bytes|);
    DecimalsLength(bytes[1..], |bytes| - 1);
    assert Drop(bytes, 1) == bytes[1..];
    AtoiDecimal(bytes[0]);
    Split3(Decimals(bytes, |bytes|), Decimal(bytes[0]), Decimals(bytes[1..], |bytes| - 1), input, pos);
    ThreeRead(input, pos, Decimal(bytes[0]));
    NumbersStep(input, pos, |bytes|, t);
  }

  lemma NoNumbers(input: seq<byte>, pos: nat, t: seq<byte>)
    requires pos <= |input|
    ensures Numbers(input, pos, 0, t) == ([], t, pos)
  {
  }

  /** The numbers read are the bytes written. */
  lemma {:induction false} NumbersRead(input: seq<byte>, pos: nat, bytes: seq<byte>, t: seq<byte>)
    requires forall i :: 0 <= i < |bytes| ==> bytes[i] >= 100
    requires pos + 3 * |bytes| <= |input| && input[pos..pos + 3 * |bytes|] == Decimals(bytes, |bytes|)
    ensures Numbers(input, pos, |bytes|, t).0 == bytes && Numbers(input, pos, |bytes|, t).2 == pos + 3 * |bytes|
    decreases |bytes|
  {
    hide *;
    if bytes == [] {
      NoNumbers(input, pos, t);
    } else {
      FirstRead(input, pos, bytes, t);
      NumbersRead(input, pos + 3, bytes[1..], CString(input[pos..pos + 3]));
      assert bytes == [bytes[0]] + bytes[1..];
    }
  }

  lemma ThreeRead(input: seq<byte>, pos: nat, d: seq<byte>)
    requires pos + 3 <= |input| && |d| == 3 && input[pos..pos + 3] == d && forall i :: 0 <= i < 3 ==> d[i] != NEWLINE
    ensures ReadLength(input, pos, 3) == 3
  {
    assert input[pos] == d[0] && input[pos + 1] == d[1] && input[pos + 2] == d[2];
    FullRead(input, pos, 3);
  }

  /** A valid text is encoded without fault, and into seven bytes or fewer only if they are the text. */
  lemma {:induction false} EncodedWell(t: seq<byte>)
    requires Utf8(t)
    ensures Encoded(t).Done? && (t != [] ==> Encoded(t).bytes != [])
    ensures |Encoded(t).bytes| <= 7 ==> Encoded(t).bytes == t && forall i :: 0 <= i < |t| ==> t[i] < 128
    decreases |t|
  {
    if t != [] {
      var n := Utf8Length(t[0]);
      LengthIs(t[0]);
      var rest := t[n..];
      EncodedWell(rest);
      if n == 1 {
        assert t == [t[0]] + rest;
      }
    }
  }

  /** Leading one-byte characters are written as they are. */
  lemma {:induction false} EncodedPrefix(t: seq<byte>, j: nat)
    requires j <= |t| && forall i :: 0 <= i < j ==> t[i] < 128
    ensures Encoded(t) == Before(t[..j], Encoded(t[j..]))
    decreases j
  {
    if j == 0 {
      assert t[0..] == t;
      BeforeNothing(Encoded(t));
    } else {
      EncodedPrefix(t[1..], j - 1);
      assert t[1..][j - 1..] == t[j..] && [t[0]] + t[1..][..j - 1] == t[..j];
      BeforeTwice([t[0]], t[1..][..j - 1], Encoded(t[j..]));
    }
  }

  lemma BeforeNothing(o: Outcome)
    ensures Before([], o) == o
  {
    if o.Done? {
      assert [] + o.bytes == o.bytes;
    }
  }

  /** How many of the first `k` bytes at most are one-byte characters in front. */
  function AsciiRun(t: seq<byte>, k: nat): (j: nat)
    ensures j <= k && j <= |t| && (forall i :: 0 <= i < j ==> t[i] < 128)
    ensures j < k && j < |t| ==> t[j] >= 128
    decreases k
  {
    if k == 0 || t == [] || t[0] >= 128 then 0 else 1 + AsciiRun(t[1..], k - 1)
  }

  lemma {:induction false} Utf8Suffix(t: seq<byte>, j: nat)
    requires Utf8(t) && j <= |t| && forall i :: 0 <= i < j ==> t[i] < 128
    ensures Utf8(t[j..])
    decreases j
  {
    if j == 0 {
      assert t[0..] == t;
    } else {
      Utf8Suffix(t[1..], j - 1);
      assert t[1..][j - 1..] == t[j..];
    }
  }

  /** The marker does not overlap itself. */
  lemma NoOverlap(e: seq<byte>, f: seq<byte>, j: nat)
    requires 0 < j < 8 && 8 <= |e| && j <= |e| && e[j..] == f && |f| >= 8 && f[..8] == MARKER
    ensures e[..8] != MARKER
  {
    assert f[0] == f[..8][0] && f[1] == f[..8][1] && e[j] == e[..8][j] && e[3] == e[..8][3];
    assert e[j] == f[0] && (j == 2 ==> e[3] == f[1]);
  }

  /** So it shows up in the encoded text only where the encoder put it or where it stood in the text. */
  lemma NoFalseMarker(t: seq<byte>)
    requires Utf8(t) && t != [] && t[0] < 128 && !MarkerAt(t, 0)
    ensures Encoded(t).Done? && !MarkerAt(Encoded(t).bytes, 0)
  {
    hide Utf8, Decimal, Decimals, Encoded, NoOfBytes;
    EncodedWell(t);
    var e := Encoded(t).bytes;
    var j := AsciiRun(t, 8);
    EncodedPrefix(t, j);
    if j == 8 {
      assert e[..8] == t[..8];
    } else if j == |t| {
      EncodedNothing();
      assert t[j..] == [] && e == t;
    } else {
      Utf8Suffix(t, j);
      WideLead(t[j..]);
      StartsWithMarker(t[j..]);
      var f := Encoded(t[j..]).bytes;
      assert e == t[..j] + f && e[j..] == f;
      NoOverlap(e, f, j);
    }
  }

  lemma WideLead(t: seq<byte>)
    requires Utf8(t) && t != [] && t[0] >= 128
    ensures NoOfBytes(t[0]) == Utf8Length(t[0]) && 2 <= NoOfBytes(t[0]) <= 4
  {
    LengthIs(t[0]);
  }

  lemma EncodedNothing()
    ensures Encoded([]) == Done([])
  {
  }

  /** A character of several bytes starts with the marker. */
  lemma StartsWithMarker(t: seq<byte>)
    requires t != [] && t[0] >= 128 && Encoded(t).Done? && NoOfBytes(t[0]) > 1
    ensures |Encoded(t).bytes| >= 8 && Encoded(t).bytes[..8] == MARKER
  {
  }

  lemma MarkerSuffix(input: seq<byte>, pos: nat)
    requires pos <= |input|
    ensures MarkerAt(input, pos) <==> MarkerAt(input[pos..], 0)
  {
    assert pos + 8 <= |input| ==> input[pos..pos + 8] == input[pos..][0..8];
  }

  lemma PlainIs(t: seq<byte>)
    requires Plain(t)
    ensures Utf8(t) && NoMarker(t) && (t != [] ==> !DryTail(t, 0))
  {
  }

  /** Decoding what was written for a suffix of the text gives the suffix. */
  lemma {:induction false} SuffixDecoded(input: seq<byte>, pos: nat, t: seq<byte>, b: Buffers)
    requires Plain(t) && pos <= |input| && |b.p| == 8
    requires Encoded(t) == Done(input[pos..])
    ensures Run(input, pos, b) == Done(t)
    decreases |t|
  {
    hide *;
    if t == [] {
      EncodedNothing();
      assert |input[pos..]| == 0;
      RunEnds(input, b);
    } else if t[0] < 128 {
      PlainIs(t);
      AsciiDecoded(input, pos, t, b);
      PlainRest(t, 1);
      SuffixDecoded(input, pos + 1, t[1..], Turn(input, pos, b).buffers);
      RunTurns(input, pos, b);
      BeforeIs([t[0]], Done(t[1..]));
      assert t == [t[0]] + t[1..];
    } else {
      PlainIs(t);
      WideDecoded(input, pos, t, b);
      var n := Utf8Length(t[0]);
      PlainRest(t, n);
      TurnStays(input, pos, b);
      SuffixDecoded(input, pos + 9 + 3 * n, t[n..], Turn(input, pos, b).buffers);
      RunTurns(input, pos, b);
      BeforeIs(t[..n], Done(t[n..]));
      assert t == t[..n] + t[n..];
    }
  }

  lemma RunEnds(input: seq<byte>, b: Buffers)
    requires |b.p| == 8
    ensures Run(input, |input|, b) == Done([])
  {
  }

  lemma RunTurns(input: seq<byte>, pos: nat, b: Buffers)
    requires pos < |input| && |b.p| == 8 && Turn(input, pos, b).Effect? && pos < Turn(input, pos, b).pos
    ensures Turn(input, pos, b).pos <= |input| && |Turn(input, pos, b).buffers.p| == 8
    ensures var e := Turn(input, pos, b); Run(input, pos, b) == Before(e.out, Run(input, e.pos, e.buffers))
  {
    hide Turn;
    TurnStays(input, pos, b);
  }

  /** A turn at a one-byte character puts it out. */
  lemma AsciiDecoded(input: seq<byte>, pos: nat, t: seq<byte>, b: Buffers)
    requires Utf8(t) && NoMarker(t) && t != [] && t[0] < 128 && !DryTail(t, 0) && pos <= |input| && |b.p| == 8
    requires Encoded(t) == Done(input[pos..])
    ensures pos < |input| && Turn(input, pos, b).Effect? && |Turn(input, pos, b).buffers.p| == 8
    ensures Turn(input, pos, b).pos == pos + 1 && Turn(input, pos, b).out == [t[0]]
    ensures Encoded(t[1..]) == Done(input[pos + 1..]) && Utf8Length(t[0]) == 1
  {
    assert !MarkerAt(t, 0);
    NoFalseMarker(t);
    MarkerSuffix(input, pos);
    EncodedWell(t);
    DrySuffix(input, pos, t);
    EncodedWell(t[1..]);
    var s := input[pos..];
    assert s == [t[0]] + Encoded(t[1..]).bytes;
    hide *;
    assert s[0] == input[pos] && s[1..] == input[pos + 1..];
    TurnCopies(input, pos, b);
  }

  /** The input runs dry at a character exactly when the text does. */
  lemma DrySuffix(input: seq<byte>, pos: nat, t: seq<byte>)
    requires pos <= |input| && Utf8(t) && Encoded(t) == Done(input[pos..]) && t != [] && t[0] < 128
    ensures Dry(input, pos) <==> DryTail(t, 0)
  {
    EncodedWell(t);
    var s := input[pos..];
    assert |s| == |input| - pos && forall i :: 0 <= i < |s| ==> s[i] == input[pos + i];
    if DryTail(t, 0) {
      AsciiIsUtf8(t);
      forall j | pos <= j < |input| ensures input[j] != NEWLINE { assert input[j] == t[j - pos]; }
    }
    if Dry(input, pos) {
      assert s == t;
      forall j | 0 <= j < |t| ensures t[j] != NEWLINE { assert t[j] == input[pos + j]; }
    }
  }

  lemma MarkerLater(t: seq<byte>, n: nat, i: nat)
    requires n <= |t|
    ensures MarkerAt(t[n..], i) ==> MarkerAt(t, n + i)
  {
    assert n + i + 8 <= |t| ==> t[n + i..n + i + 8] == t[n..][i..i + 8];
  }

  lemma PlainRest(t: seq<byte>, n: nat)
    requires Plain(t) && t != [] && n == Utf8Length(t[0])
    ensures n <= |t| && Plain(t[n..])
  {
    hide MarkerAt, DryTail;
    forall i | 0 <= i < |t[n..]| ensures !MarkerAt(t[n..], i) && !DryTail(t[n..], i) {
      MarkerLater(t, n, i);
      DryLater(t, n, i);
    }
  }

  lemma DryLater(t: seq<byte>, n: nat, i: nat)
    requires n <= |t|
    ensures DryTail(t[n..], i) <==> DryTail(t, n + i)
  {
    var s := t[n..];
    assert forall j :: n <= j < |t| ==> t[j] == s[j - n];
  }

  /** A turn at a character of several bytes puts out its bytes. */
  lemma WideDecoded(input: seq<byte>, pos: nat, t: seq<byte>, b: Buffers)
    requires Utf8(t) && t != [] && t[0] >= 128 && pos <= |input| && |b.p| == 8
    requires Encoded(t) == Done(input[pos..])
    ensures var n := Utf8Length(t[0]);
      && 2 <= n <= |t| && pos + 9 + 3 * n <= |input| && pos < |input|
      && Turn(input, pos, b).Effect? && Turn(input, pos, b).pos == pos + 9 + 3 * n && Turn(input, pos, b).out == t[..n]
      && Encoded(t[n..]) == Done(input[pos + 9 + 3 * n..])
  {
    hide *;
    WideParts(input, pos, t);
    var n := Utf8Length(t[0]);
    TurnDecodes(input, pos, b);
    NumbersRead(input, pos + 9, t[..n], b.t);
    NoZero(t[..n]);
  }

  lemma Utf8Rest(t: seq<byte>)
    requires Utf8(t) && t != []
    ensures 0 < Utf8Length(t[0]) <= |t| && Utf8(t[Utf8Length(t[0])..])
  {
  }

  /** The parts of an encoded character of several bytes. */
  lemma WideParts(input: seq<byte>, pos: nat, t: seq<byte>)
    requires Utf8(t) && t != [] && t[0] >= 128 && pos <= |input| && Encoded(t) == Done(input[pos..])
    ensures var n := Utf8Length(t[0]);
      && 2 <= n <= 4 && n <= |t| && (forall i :: 0 <= i < |t[..n]| ==> t[..n][i] >= 100)
      && pos + 9 + 3 * n <= |input| && MarkerAt(input, pos) && input[pos + 8] - ZERO == n <= 6
      && input[pos + 9..pos + 9 + 3 * |t[..n]|] == Decimals(t[..n], |t[..n]|)
      && Encoded(t[n..]) == Done(input[pos + 9 + 3 * n..])
  {
    hide *;
    var n := Utf8Length(t[0]);
    WideLead(t);
    WideBytes(t);
    Utf8Rest(t);
    EncodedWell(t[n..]);
    EncodedWide(t);
    BeforeIs(MARKER + Decimal(n) + Decimals(t, n), Encoded(t[n..]));
    var rest := Encoded(t[n..]).bytes;
    assert input[pos..] == MARKER + Decimal(n) + Decimals(t, n) + rest;
    DecimalsFront(t, n);
    DecimalsLength(t[..n], n);
    WidePlaces(input, pos, n, Decimals(t, n), rest);
  }

  lemma BeforeIs(a: seq<byte>, o: Outcome)
    requires o.Done?
    ensures Before(a, o) == Done(a + o.bytes)
  {
  }

  lemma EncodedWide(t: seq<byte>)
    requires Utf8(t) && t != [] && t[0] >= 128
    ensures var n := Utf8Length(t[0]);
      2 <= n <= |t| && Encoded(t) == Before(MARKER + Decimal(n) + Decimals(t, n), Encoded(t[n..]))
  {
    WideLead(t);
  }

  lemma WideBytes(t: seq<byte>)
    requires Utf8(t) && t != [] && t[0] >= 128
    ensures forall i :: 0 <= i < Utf8Length(t[0]) ==> t[i] >= 100
  {
  }

  lemma {:induction false} DecimalsFront(t: seq<byte>, n: nat)
    requires n <= |t|
    ensures Decimals(t, n) == Decimals(t[..n], n)
    decreases n
  {
    if n > 0 {
      DecimalsFront(t[1..], n - 1);
      assert t[..n][1..] == t[1..][..n - 1];
      DecimalsFront(t[..n][1..], n - 1);
    }
  }

  /** Where the parts of an encoded character lie. */
  lemma WidePlaces(input: seq<byte>, pos: nat, n: nat, digits: seq<byte>, rest: seq<byte>)
    requires pos <= |input| && 2 <= n <= 8 && |digits| == 3 * n && input[pos..] == MARKER + Decimal(n) + digits + rest
    ensures MarkerAt(input, pos) && pos + 9 + 3 * n <= |input| && input[pos + 8] == ZERO + n
    ensures input[pos + 9..pos + 9 + 3 * n] == digits && input[pos + 9 + 3 * n..] == rest
  {
    var s := input[pos..];
    assert s[..8] == MARKER && s[8] == ZERO + n && s[9..9 + 3 * n] == digits && s[9 + 3 * n..] == rest;
    assert input[pos..pos + 8] == s[..8];
    assert input[pos + 9..pos + 9 + 3 * n] == s[9..9 + 3 * n];
    assert input[pos + 9 + 3 * n..] == s[9 + 3 * n..];
  }

  /** A text with a dry tail does not come back. */
  lemma {:induction false} SuffixLost(input: seq<byte>, pos: nat, t: seq<byte>, b: Buffers, i: nat)
    requires Utf8(t) && NoMarker(t) && DryTail(t, i) && pos <= |input| && |b.p| == 8
    requires Encoded(t) == Done(input[pos..])
    ensures Run(input, pos, b) != Done(t)
    decreases |t|
  {
    hide *;
    TailIs(t, i);
    if DryTail(t, 0) {
      TailIs(t, 0);
      DrySuffix(input, pos, t);
      EncodedWell(t);
      DryLost(input, pos, t, b);
    } else {
      var n := Utf8Length(t[0]);
      Utf8Rest(t);
      MarkerRest(t, n);
      if t[0] < 128 {
        AsciiDecoded(input, pos, t, b);
      } else {
        WideDecoded(input, pos, t, b);
        TurnStays(input, pos, b);
      }
      TailBehind(t, n, i);
      SuffixLost(input, pos + (if n == 1 then 1 else 9 + 3 * n), t[n..], Turn(input, pos, b).buffers, i - n);
      RunTurns(input, pos, b);
      BeforeOther(t[..n], Run(input, Turn(input, pos, b).pos, Turn(input, pos, b).buffers), t[n..]);
      assert t == t[..n] + t[n..];
      assert n == 1 ==> t[..n] == [t[0]];
    }
  }

  lemma TailIs(t: seq<byte>, i: nat)
    requires DryTail(t, i)
    ensures Dry(t, i) && i < |t| && t[i] == MARKER[0] && t[i] < 128
  {
  }

  lemma MarkerRest(t: seq<byte>, n: nat)
    requires NoMarker(t) && n <= |t|
    ensures NoMarker(t[n..])
  {
    forall i | 0 <= i < |t[n..]| ensures !MarkerAt(t[n..], i) {
      MarkerLater(t, n, i);
    }
  }

  /** A dry tail that does not begin the text begins behind its first character. */
  lemma TailBehind(t: seq<byte>, n: nat, i: nat)
    requires Utf8(t) && DryTail(t, i) && !DryTail(t, 0) && n == Utf8Length(t[0])
    ensures n <= i && n <= |t| && DryTail(t[n..], i - n)
  {
    assert forall k :: 1 <= k < n ==> t[k] >= 0x80;
    DryLater(t, n, i - n);
  }

  lemma BeforeOther(a: seq<byte>, o: Outcome, rest: seq<byte>)
    requires o != Done(rest)
    ensures Before(a, o) != Done(a + rest)
  {
    assert (a + rest)[|a|..] == rest;
    if o.Done? {
      assert (a + o.bytes)[|a|..] == o.bytes;
    }
  }

  lemma DryLost(input: seq<byte>, pos: nat, t: seq<byte>, b: Buffers)
    requires |b.p| == 8 && Dry(input, pos) && t != [] && t[0] == MARKER[0]
    ensures Run(input, pos, b) != Done(t)
  {
    hide Turn;
    DryOut(input, pos, b);
    TurnStays(input, pos, b);
  }

  /** Decoding undoes encoding on exactly those valid UTF-8 texts without the marker that do not end in an "n" and
      fewer than seven one-byte characters without a newline. */
  lemma RoundTrip(t: seq<byte>, b: Buffers)
    requires Utf8(t) && NoMarker(t) && |b.p| == 8
    ensures Encoded(t).Done?
    ensures Run(Encoded(t).bytes, 0, b) == Done(t) <==> forall i :: 0 <= i < |t| ==> !DryTail(t, i)
  {
    EncodedWell(t);
    var e := Encoded(t).bytes;
    assert e[0..] == e;
    hide Run, DryTail, Encoded, Utf8;
    if i :| 0 <= i < |t| && DryTail(t, i) {
      SuffixLost(e, 0, t, b, i);
    } else {
      SuffixDecoded(e, 0, t, b);
    }
  }

  /** So every such text that ends its last line comes back. */
  lemma LinesRoundTrip(t: seq<byte>, b: Buffers)
    requires Utf8(t) && NoMarker(t) && EndsLine(t) && |b.p| == 8
    ensures Encoded(t).Done? && Run(Encoded(t).bytes, 0, b) == Done(t)
  {
    RoundTrip(t, b);
    assert forall i :: 0 <= i < |t| ==> !DryTail(t, i);
  }

  // ------------------------------------------------------------------------------------------
  // Texts that hold the marker
  // ------------------------------------------------------------------------------------------

  lemma {:induction false} RunNoLonger(input: seq<byte>, pos: nat, b: Buffers)
    requires pos <= |input| && |b.p| == 8
    ensures Run(input, pos, b).Done? ==> |Run(input, pos, b).bytes| <= |input| - pos
    decreases |input| - pos
  {
    hide Turn;
    if pos < |input| && Turn(input, pos, b).Effect? && pos < Turn(input, pos, b).pos {
      TurnProgress(input, pos, b);
      RunNoLonger(input, Turn(input, pos, b).pos, Turn(input, pos, b).buffers);
    }
  }

  lemma {:induction false} MarkerShrinks(input: seq<byte>, pos: nat, b: Buffers, i: nat)
    requires pos <= i < |input| && |b.p| == 8 && MarkerAt(input, i)
    requires forall j :: pos <= j < i ==> !MarkerAt(input, j)
    ensures Run(input, pos, b).Done? ==> |Run(input, pos, b).bytes| < |input| - pos
    decreases |input| - pos
  {
    hide Turn, MarkerAt;
    if Turn(input, pos, b).Effect? && pos < Turn(input, pos, b).pos {
      TurnProgress(input, pos, b);
      if pos == i {
        RunNoLonger(input, Turn(input, pos, b).pos, Turn(input, pos, b).buffers);
      } else {
        NotDryBefore(input, pos, i);
        TurnCopies(input, pos, b);
        MarkerShrinks(input, pos + 1, Turn(input, pos, b).buffers, i);
      }
    }
  }

  lemma NotDryBefore(input: seq<byte>, pos: nat, i: nat)
    requires pos <= i && MarkerAt(input, i)
    ensures !Dry(input, pos)
  {
  }

  lemma {:induction false} FirstMarker(t: seq<byte>, i: nat) returns (first: nat)
    requires MarkerAt(t, i)
    ensures first <= i && MarkerAt(t, first) && forall j :: 0 <= j < first ==> !MarkerAt(t, j)
  {
    hide MarkerAt;
    if j :| 0 <= j < i && MarkerAt(t, j) {
      first := FirstMarker(t, j);
    } else {
      first := i;
    }
  }

  lemma {:induction false} AsciiIsUtf8(t: seq<byte>)
    requires forall i :: 0 <= i < |t| ==> t[i] < 128
    ensures Utf8(t) && Encoded(t) == Done(t)
  {
    if t != [] {
      AsciiIsUtf8(t[1..]);
      assert t == [t[0]] + t[1..];
    }
  }

  /** On plain ASCII the encoder changes nothing, and the decoder changes nothing exactly when the text does not hold
      the marker and does not run dry. */
  lemma AsciiRoundTrip(t: seq<byte>, b: Buffers)
    requires |b.p| == 8 && forall i :: 0 <= i < |t| ==> t[i] < 128
    ensures Encoded(t) == Done(t)
    ensures Run(t, 0, b) == Done(t) <==> NoMarker(t) && forall i :: 0 <= i < |t| ==> !Dry(t, i)
  {
    AsciiIsUtf8(t);
    hide Run, MarkerAt, Utf8, Encoded, Dry;
    if i :| 0 <= i < |t| && MarkerAt(t, i) {
      var first := FirstMarker(t, i);
      MarkerShrinks(t, 0, b, first);
    } else {
      RoundTrip(t, b);
      assert forall i :: 0 <= i < |t| ==> (DryTail(t, i) <==> Dry(t, i));
    }
  }

  /** The text "nonascii" and a newline is such a text: the decoder writes nothing for it. */
  lemma MarkerLost(b: Buffers)
    requires |b.p| == 8
    ensures Encoded(MARKER + [NEWLINE]) == Done(MARKER + [NEWLINE]) && Run(MARKER + [NEWLINE], 0, b) == Done([])
  {
    var t := MARKER + [NEWLINE];
    hide Encoded, Run, Utf8;
    assert t == [110, 111, 110, 97, 115, 99, 105, 105, 10];
    AsciiIsUtf8(t);
    assert t[0..8] == MARKER;
    OnlyMarker(t, b);
  }

  lemma OnlyMarker(t: seq<byte>, b: Buffers)
    requires |t| == 9 && t[8] == NEWLINE && MarkerAt(t, 0) && |b.p| == 8
    ensures Run(t, 0, b) == Done([])
  {
    hide Turn, Run, MarkerAt, CString, Numbers;
    TurnDecodes(t, 0, b);
    TurnStays(t, 0, b);
    RunTurns(t, 0, b);
    RunEnds(t, Turn(t, 0, b).buffers);
  }

  // ------------------------------------------------------------------------------------------
  // The decoder's loop
  // ------------------------------------------------------------------------------------------

  /** fgets into the buffer for the letters after an "n". */
  method Fgets(input: seq<byte>, start: nat, p: array<byte>) returns (pos: nat)
    requires start <= |input| && p.Length == 8
    modifies p
    ensures pos == start + ReadLength(input, start, 7) && p[..] == GetsInto(input, start, old(p[..]))
  {
    pos := start;
    var i := 0;
    ghost var was := p[..];
    ghost var k := ReadLength(input, start, 7);
    var stop := false;
    while i < 7 && pos < |input| && !stop
      invariant 0 <= i <= 7 && pos == start + i <= |input|
      invariant k == i + if stop then 0 else ReadLength(input, pos, 7 - i)
      invariant forall j :: 0 <= j < i ==> p[j] == input[start + j]
      invariant forall j :: i <= j < 8 ==> p[j] == was[j]
      decreases 7 - i
    {
      p[i] := input[pos];
      stop := input[pos] == NEWLINE;
      pos := pos + 1;
      i := i + 1;
    }
    assert k == i;
    if i > 0 {
      p[i] := 0;
    }
    Got(input, start, was, p[..], i);
  }

  lemma Got(input: seq<byte>, start: nat, was: seq<byte>, p: seq<byte>, k: nat)
    requires start <= |input| && |was| == |p| == 8 && k == ReadLength(input, start, 7)
    requires forall j :: 0 <= j < k ==> p[j] == input[start + j]
    requires if k == 0 then p[0] == was[0] else p[k] == 0
    requires forall j :: k < j < 8 ==> p[j] == was[j]
    ensures p == GetsInto(input, start, was)
  {
    hide ReadLength;
    if k == 0 {
      assert p == was;
    } else {
      assert p == input[start..start + k] + [0] + was[k + 1..];
    }
  }

  /** Reads `n` numbers of up to three characters. */
  method ReadNumbers(input: seq<byte>, start: nat, n: nat, stale: seq<byte>)
    returns (a: seq<byte>, t: seq<byte>, pos: nat)
    requires start <= |input|
    ensures (a, t, pos) == Numbers(input, start, n, stale) && pos <= |input|
  {
    hide Numbers, ReadLength, CString, Atoi;
    a, t, pos := [], stale, start;
    ghost var all := Numbers(input, start, n, stale);
    var i := 0;
    while i < n
      invariant 0 <= i <= n && pos <= |input|
      invariant a + Numbers(input, pos, n - i, t).0 == all.0
      invariant Numbers(input, pos, n - i, t).1 == all.1 && Numbers(input, pos, n - i, t).2 == all.2
    {
      NextNumber(input, pos, n - i, t);
      var k := ReadLength(input, pos, 3);
      if k > 0 {
        t := CString(input[pos..pos + k]);
      }
      ghost var rest := Numbers(input, pos + k, n - i - 1, t);
      assert a + ([Atoi(t) % 256] + rest.0) == a + [Atoi(t) % 256] + rest.0;
      a := a + [Atoi(t) % 256];
      pos := pos + k;
      i := i + 1;
    }
    NoNumbers(input, pos, t);
    assert a + [] == a;
  }

  lemma NextNumber(input: seq<byte>, pos: nat, n: nat, t: seq<byte>)
    requires pos <= |input| && n > 0
    ensures var k := ReadLength(input, pos, 3);
      var read := if k == 0 then t else CString(input[pos..pos + k]);
      var rest := Numbers(input, pos + k, n - 1, read);
      Numbers(input, pos, n, t) == ([Atoi(read) % 256] + rest.0, rest.1, rest.2)
  {
  }

  /** One turn of the loop. */
  method DecodeTurn(input: seq<byte>, start: nat, p: array<byte>, t: seq<byte>) returns (e: Effect)
    requires start < |input| && p.Length == 8
    modifies p
    ensures e == Turn(input, start, Buffers(old(p[..]), t))
    ensures e.Effect? ==> e.buffers.p == p[..]
  {
    hide CString, Numbers, ReadLength, GetsInto, Atoi;
    ghost var was := p[..];
    var c := input[start];
    var pos := start + 1;
    if c == MARKER[0] {
      pos := Fgets(input, pos, p);
      var flag, sb := true, 0;
      while sb < 7
        invariant 0 <= sb <= 7 && flag && NewlineAt(p[..], sb) == NewlineAt(p[..], 0)
      {
        if p[sb] == NEWLINE {
          flag := false;
          break;
        }
        sb := sb + 1;
      }
      if flag {
        if CString(p[..]) == REST {
          var d := -1;
          if pos < |input| {
            d := input[pos];
            pos := pos + 1;
          }
          var n := d - ZERO;
          if n > 6 {
            return Overflow;
          }
          if n <= 0 {
            return Effect(pos, Buffers(p[..], t), []);
          }
          var a, last, end := ReadNumbers(input, pos, n, t);
          return Effect(end, Buffers(p[..], last), CString(a));
        } else {
          return PutNext(input, Seek(pos, -8), Buffers(p[..], t));
        }
      } else {
        return PutNext(input, Seek(pos, -2 - sb), Buffers(p[..], t));
      }
    } else {
      return Effect(pos, Buffers(p[..], t), [c]);
    }
  }

  /** The decoder, on all inputs on which it comes to an end. */
  method DecodeText(input: seq<byte>, p: array<byte>, t0: seq<byte>) returns (o: Outcome)
    requires p.Length == 8 && Run(input, 0, Buffers(p[..], t0)) != Endless
    modifies p
    ensures o == Run(input, 0, Buffers(old(p[..]), t0))
  {
    hide Turn;
    var out, pos, t := [], 0, t0;
    BeforeNothing(Run(input, 0, Buffers(p[..], t)));
    while pos < |input|
      invariant 0 <= pos <= |input|
      invariant Before(out, Run(input, pos, Buffers(p[..], t))) == Run(input, 0, Buffers(old(p[..]), t0))
      decreases |input| - pos
    {
      ghost var b := Buffers(p[..], t);
      var e := DecodeTurn(input, pos, p, t);
      match e {
        case Overflow =>
          return Fault;
        case Effect(next, buffers, bytes) =>
          TurnStays(input, pos, b);
          BeforeTwice(out, bytes, Run(input, next, buffers));
          out := out + bytes;
          pos := next;
          t := buffers.t;
          assert Buffers(p[..], t) == buffers;
      }
    }
    return Done(out);
  }
}
