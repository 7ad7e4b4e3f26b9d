/** The format between encoder and decoder, written out in byte codes. */
module CodecFormat {
  import opened Bytes
  import opened AsciiCodec

  // ------------------------------------------------------------------------------------------
  // Numbers
  // ------------------------------------------------------------------------------------------

  predicate AllDigits(s: seq<byte>) { forall i :: 0 <= i < |s| ==> 48 <= s[i] <= 57 }

  /** The value of digits by position. */
  function ValueOf(s: seq<byte>): int {
    if s == [] then 0 else 10 * ValueOf(s[..|s| - 1]) + (s[|s| - 1] as int - 48)
  }

  predicate Blank(c: byte) { c == 32 || 9 <= c <= 13 }

  lemma ValueOf3(a: byte, b: byte, c: byte)
    ensures ValueOf([a]) == a - 48
    ensures ValueOf([a, b]) == 10 * (a - 48) + (b - 48)
    ensures ValueOf([a, b, c]) == 100 * (a - 48) + 10 * (b - 48) + (c - 48)
  {
    assert [a][..0] == [] && [a, b][..1] == [a] && [a, b, c][..2] == [a, b];
  }

  /** A byte is written in decimal, without leading zeros. */
  lemma DecimalIs(c: byte)
    ensures AllDigits(Decimal(c)) && ValueOf(Decimal(c)) == c
    ensures |Decimal(c)| == if c < 10 then 1 else if c < 100 then 2 else 3
  {
    if c < 10 {
      ValueOf3(48 + c, 48, 48);
    } else if c < 100 {
      ValueOf3(48 + c / 10, 48 + c % 10, 48);
    } else {
      ThreeDigits(c);
      hide Decimal, ValueOf;
      ValueOf3(48 + c / 100, 48 + c / 10 % 10, 48 + c % 10);
    }
  }

  lemma ThreeDigits(c: byte)
    requires c >= 100
    ensures 1 <= c / 100 <= 2 && 0 <= c / 10 % 10 <= 9 && 0 <= c % 10 <= 9
    ensures 100 * (c / 100) + 10 * (c / 10 % 10) + c % 10 == c
    ensures Decimal(c) == [48 + c / 100, 48 + c / 10 % 10, 48 + c % 10]
  {
    assert c == 10 * (c / 10) + c % 10 && c / 10 == 10 * (c / 100) + c / 10 % 10;
  }

  lemma {:induction false} DigitsJoin(d: seq<byte>, s: seq<byte>, value: nat)
    requires AllDigits(d)
    ensures Digits(d + s, value) == Digits(s, Digits(d, value))
  {
    if d == [] {
      assert d + s == s;
    } else {
      assert (d + s)[1..] == d[1..] + s;
      DigitsJoin(d[1..], s, 10 * value + (d[0] as int - 48));
    }
  }

  lemma {:induction false} DigitsAre(d: seq<byte>)
    requires AllDigits(d)
    ensures Digits(d, 0) == ValueOf(d)
  {
    if d != [] {
      var n := |d| - 1;
      DigitsAre(d[..n]);
      DigitsJoin(d[..n], [d[n]], 0);
      OneDigit(d[n], Digits(d[..n], 0));
      assert d[..n] + [d[n]] == d;
    }
  }

  lemma OneDigit(c: byte, value: nat)
    requires 48 <= c <= 57
    ensures Digits([c], value) == 10 * value + (c as int - 48)
  {
    assert [c][1..] == [];
  }

  lemma DigitsEnd(digits: seq<byte>, rest: seq<byte>)
    requires AllDigits(digits) && (rest == [] || !(48 <= rest[0] <= 57))
    ensures Digits(digits + rest, 0) == ValueOf(digits)
  {
    DigitsAre(digits);
    DigitsJoin(digits, rest, 0);
  }

  /** What the decoder reads from a string: blanks skipped, then a sign, then the digits in front of anything else, by
      position. */
  lemma {:induction false} AtoiIs(blanks: seq<byte>, sign: seq<byte>, digits: seq<byte>, rest: seq<byte>)
    requires (forall i :: 0 <= i < |blanks| ==> Blank(blanks[i])) && sign in {[], [43], [45]} && AllDigits(digits)
    requires rest != [] ==> !(48 <= rest[0] <= 57)
    requires rest != [] && digits == [] && sign == [] ==> !Blank(rest[0]) && rest[0] != 43 && rest[0] != 45
    ensures Atoi(blanks + sign + digits + rest) == if sign == [45] then -ValueOf(digits) else ValueOf(digits)
  {
    var s := blanks + sign + digits + rest;
    if blanks != [] {
      assert s[1..] == blanks[1..] + sign + digits + rest;
      AtoiIs(blanks[1..], sign, digits, rest);
    } else if sign != [] {
      assert s[1..] == digits + rest;
      DigitsEnd(digits, rest);
    } else {
      assert s == digits + rest;
      DigitsEnd(digits, rest);
    }
  }

  // ------------------------------------------------------------------------------------------
  // What the encoder writes
  // ------------------------------------------------------------------------------------------

  /** How many bytes belong to a character, by its first. */
  lemma LeadIs(c: byte)
    ensures NoOfBytes(c) == if c < 192 then 1 else if c < 224 then 2 else if c < 240 then 3 else if c < 248 then 4
                            else if c < 252 then 5 else if c < 254 then 6 else if c < 255 then 7 else 8
  {
    if c >= 128 {
      assert LeadingOnes(c, 128) == 1 + LeadingOnes(c - 128, 64);
      if c >= 192 {
        assert LeadingOnes(c - 128, 64) == 1 + LeadingOnes(c - 192, 32);
        if c >= 224 {
          assert LeadingOnes(c - 192, 32) == 1 + LeadingOnes(c - 224, 16);
          if c >= 240 { LateLead(c); }
        }
      }
    }
  }

  lemma LateLead(c: byte)
    requires c >= 240
    ensures LeadingOnes(c - 224, 16) == if c < 248 then 1 else if c < 252 then 2 else if c < 254 then 3
                                        else if c < 255 then 4 else 5
  {
    var a, b, d, e := c - 240, c - 248, c - 252, c - 254;
    OneMore(c - 224, 16);
    OneMore(a, 8);
    if c >= 248 { OneMore(b, 4); }
    if c >= 252 { OneMore(d, 2); }
    if c >= 254 { OneMore(e, 1); }
    hide LeadingOnes;
    if c == 255 {
      NoMore();
    }
  }

  lemma OneMore(ch: int, x: nat)
    requires x > 0
    ensures LeadingOnes(ch, x) == if ch >= x then 1 + LeadingOnes(ch - x, x / 2) else 0
  {
  }

  lemma NoMore()
    ensures LeadingOnes(0, 0) == 0
  {
  }

  /** The three digits of a byte stand from `k` on. */
  ghost predicate WrittenAt(d: seq<byte>, k: int, c: byte) {
    0 <= k <= |d| - 3 && d[k] == 48 + c / 100 && d[k + 1] == 48 + c / 10 % 10 && d[k + 2] == 48 + c % 10
  }

  lemma {:induction false} ThreesAt(t: seq<byte>, n: nat, i: nat)
    requires i < n <= |t| && forall k :: 0 <= k < n ==> t[k] >= 100
    ensures WrittenAt(Decimals(t, n), 3 * i, t[i])
  {
    DecimalsNext(t, n);
    hide *;
    assert t[0] >= 100;
    if i == 0 {
      WrittenFirst(t[0], Decimals(t[1..], n - 1));
    } else {
      assert t[1..][i - 1] == t[i];
      ThreesAt(t[1..], n - 1, i - 1);
      WrittenLater(Decimal(t[0]), Decimals(t[1..], n - 1), 3 * (i - 1), t[i]);
    }
  }

  lemma DecimalsNext(t: seq<byte>, n: nat)
    requires t != [] && n > 0
    ensures Decimals(t, n) == Decimal(t[0]) + Decimals(t[1..], n - 1)
    ensures t[0] >= 100 ==> |Decimal(t[0])| == 3
  {
    DecimalsSplit(t, n);
  }

  lemma WrittenFirst(c: byte, d: seq<byte>)
    requires c >= 100
    ensures WrittenAt(Decimal(c) + d, 0, c)
  {
    ThreeDigits(c);
    hide Decimal;
  }

  lemma WrittenLater(a: seq<byte>, d: seq<byte>, k: int, c: byte)
    requires WrittenAt(d, k, c)
    ensures WrittenAt(a + d, |a| + k, c)
  {
  }

  /** A text that starts with a character of `n` bytes, two or more, is written as "nonascii", the digit `n`, three
      digits for every byte of the character, and what is written for the rest. */
  lemma EncodedIs(t: seq<byte>, n: nat)
    requires t != [] && 192 <= t[0] < 255 && n == NoOfBytes(t[0]) <= |t| && forall i :: 0 <= i < n ==> t[i] >= 100
    ensures Encoded(t).Done? <==> Encoded(t[n..]).Done?
    ensures Encoded(t).Done? ==>
      var e := Encoded(t).bytes;
      && |e| >= 9 + 3 * n && e[..8] == [110, 111, 110, 97, 115, 99, 105, 105] && e[8] == 48 + n
      && (forall i :: 0 <= i < n ==> WrittenAt(e, 9 + 3 * i, t[i]))
      && e[9 + 3 * n..] == Encoded(t[n..]).bytes
  {
    LeadIs(t[0]);
    DecimalsLength(t, n);
    EncodedStart(t, n);
    hide *;
    BeforeDone(MARKER + Decimal(n) + Decimals(t, n), Encoded(t[n..]));
    if Encoded(t[n..]).Done? {
      CharacterWritten(t, n, Encoded(t).bytes, Encoded(t[n..]).bytes);
    }
  }

  lemma CharacterWritten(t: seq<byte>, n: nat, e: seq<byte>, rest: seq<byte>)
    requires 2 <= n <= 7 && n <= |t| && forall i :: 0 <= i < n ==> t[i] >= 100
    requires |Decimals(t, n)| == 3 * n && e == MARKER + Decimal(n) + Decimals(t, n) + rest
    ensures |e| >= 9 + 3 * n && e[..8] == [110, 111, 110, 97, 115, 99, 105, 105] && e[8] == 48 + n
    ensures forall i :: 0 <= i < n ==> WrittenAt(e, 9 + 3 * i, t[i])
    ensures e[9 + 3 * n..] == rest
  {
    hide Decimals, Decimal, WrittenAt;
    var d := Decimals(t, n);
    Assembled(e, n, d, rest);
    forall i | 0 <= i < n ensures WrittenAt(e, 9 + 3 * i, t[i]) {
      ThreesAt(t, n, i);
      WrittenLater(MARKER + [48 + n], d, 3 * i, t[i]);
      WrittenBefore(MARKER + [48 + n] + d, rest, 9 + 3 * i, t[i]);
    }
  }

  lemma WrittenBefore(d: seq<byte>, rest: seq<byte>, k: int, c: byte)
    requires WrittenAt(d, k, c)
    ensures WrittenAt(d + rest, k, c)
  {
  }

  lemma BeforeDone(a: seq<byte>, o: Outcome)
    ensures Before(a, o).Done? <==> o.Done?
    ensures o.Done? ==> Before(a, o).bytes == a + o.bytes
  {
  }

  lemma EncodedStart(t: seq<byte>, n: nat)
    requires t != [] && t[0] < 255 && 2 <= n == NoOfBytes(t[0]) <= |t|
    ensures Encoded(t) == Before(MARKER + Decimal(n) + Decimals(t, n), Encoded(t[n..]))
  {
    hide Decimal, Decimals, NoOfBytes;
  }

  lemma Assembled(e: seq<byte>, n: nat, d: seq<byte>, rest: seq<byte>)
    requires 2 <= n <= 7 && |d| == 3 * n && e == MARKER + Decimal(n) + d + rest
    ensures e[..8] == [110, 111, 110, 97, 115, 99, 105, 105] && e[8] == 48 + n
    ensures e == MARKER + [48 + n] + d + rest && e[9 + 3 * n..] == rest
  {
    var head := MARKER + [48 + n];
    assert e == head + d + rest;
    Parts3(head, d, rest);
    assert |head| + |d| == 9 + 3 * n;
    assert e[..8] == MARKER;
  }

  lemma Parts3(a: seq<byte>, b: seq<byte>, c: seq<byte>)
    ensures var e := a + b + c; e[|a|..|a| + |b|] == b && e[|a| + |b|..] == c && e[..|a|] == a
  {
  }

  /** One-byte characters, and what other bytes below 192 the text has, are written as they are. */
  lemma EncodedSame(t: seq<byte>)
    requires t != [] && t[0] < 192
    ensures Encoded(t) == match Encoded(t[1..])
      case Done(e) => Done([t[0]] + e) case Fault => Fault case Endless => Endless
  {
    LeadIs(t[0]);
  }

  // ------------------------------------------------------------------------------------------
  // What the decoder reads
  // ------------------------------------------------------------------------------------------

  /** Three digits of a number that is `v` as a byte. */
  predicate Three(d: seq<byte>, v: byte) {
    |d| == 3 && AllDigits(d) && (100 * (d[0] as int - 48) + 10 * (d[1] as int - 48) + (d[2] as int - 48)) % 256 == v
  }

  lemma {:induction false} NumbersAre(input: seq<byte>, pos: nat, v: seq<byte>, t: seq<byte>)
    requires pos + 3 * |v| <= |input|
    requires forall i :: 0 <= i < |v| ==> Three(input[pos + 3 * i..pos + 3 * i + 3], v[i])
    ensures Numbers(input, pos, |v|, t).0 == v && Numbers(input, pos, |v|, t).2 == pos + 3 * |v|
    decreases |v|
  {
    hide *;
    if v == [] {
      NoNumbers(input, pos, t);
    } else {
      var d := input[pos..pos + 3];
      assert Three(input[pos + 3 * 0..pos + 3 * 0 + 3], v[0]);
      ThreeIs(d, v[0]);
      ThreeRead(input, pos, d);
      NumbersStep(input, pos, |v|, t);
      forall i | 0 <= i < |v| - 1 ensures Three(input[pos + 3 + 3 * i..pos + 3 + 3 * i + 3], v[1..][i]) {
        assert Three(input[pos + 3 * (i + 1)..pos + 3 * (i + 1) + 3], v[i + 1]);
      }
      NumbersAre(input, pos + 3, v[1..], CString(d));
      assert v == [v[0]] + v[1..];
    }
  }

  lemma ThreeIs(d: seq<byte>, v: byte)
    requires Three(d, v)
    ensures |d| == 3 && CString(d) == d && Atoi(d) % 256 == v && forall i :: 0 <= i < 3 ==> d[i] != NEWLINE
  {
    NoZero(d);
    ValueOf3(d[0], d[1], d[2]);
    assert d == [d[0], d[1], d[2]];
    AtoiIs([], [], d, []);
    assert [] + [] + d + [] == d;
  }

  /** Behind "nonascii" and a digit from 1 to 6 the decoder reads that many numbers of three digits, and puts out the
      bytes up to the first that is zero. */
  lemma TurnReads(input: seq<byte>, pos: nat, b: Buffers, w: seq<byte>, z: seq<byte>)
    requires |b.p| == 8 && 1 <= |w + z| <= 6 && pos + 9 + 3 * |w + z| <= |input|
    requires input[pos..pos + 8] == [110, 111, 110, 97, 115, 99, 105, 105] && input[pos + 8] == 48 + |w + z|
    requires forall i :: 0 <= i < |w + z| ==> Three(input[pos + 9 + 3 * i..pos + 9 + 3 * i + 3], (w + z)[i])
    requires (forall i :: 0 <= i < |w| ==> w[i] != 0) && (z != [] ==> z[0] == 0)
    ensures Turn(input, pos, b).Effect? && Turn(input, pos, b).pos == pos + 9 + 3 * |w + z|
    ensures Turn(input, pos, b).out == w
  {
    hide Turn, Numbers, CString, Three;
    assert MARKER == [110, 111, 110, 97, 115, 99, 105, 105];
    TurnDecodes(input, pos, b);
    NumbersAre(input, pos + 9, w + z, b.t);
    CStringIs(w, if z == [] then [] else z[1..]);
    assert z == [] ==> w + z == w;
    assert z != [] ==> w + z == w + [0] + z[1..];
  }
}
