/** base64.StdEncoding (section 4 of RFC 4648): EncodeToString, and DecodeString with
    its tolerance of line breaks and of stray bits before padding. */
module Base64 {
  import opened Options

  type Byte = x: int | 0 <= x < 256
  type Sextet = x: int | 0 <= x < 64

  function Digit(v: Sextet): char {
    if v < 26 then 'A' + v as char
    else if v < 52 then 'a' + (v - 26) as char
    else if v < 62 then '0' + (v - 52) as char
    else if v == 62 then '+'
    else '/'
  }

  function ValueOf(c: char): Option<Sextet> {
    if 'A' <= c <= 'Z' then Some((c - 'A') as int)
    else if 'a' <= c <= 'z' then Some((c - 'a') as int + 26)
    else if '0' <= c <= '9' then Some((c - '0') as int + 52)
    else if c == '+' then Some(62)
    else if c == '/' then Some(63)
    else None
  }

  /** The four characters that stand for one, two or three bytes. */
  function Pack(b: seq<Byte>): (s: string)
    requires 1 <= |b| <= 3
    ensures |s| == 4
  {
    var y, z := if |b| > 1 then b[1] else 0, if |b| > 2 then b[2] else 0;
    [Digit(b[0] / 4),
     Digit(b[0] % 4 * 16 + y / 16),
     if |b| > 1 then Digit(y % 16 * 4 + z / 64) else '=',
     if |b| > 2 then Digit(z % 64) else '=']
  }

  function Encode(b: seq<Byte>): string {
    if b == [] then ""
    else if |b| <= 3 then Pack(b)
    else Pack(b[..3]) + Encode(b[3..])
  }

  /** The decoder skips CR and LF wherever they stand. */
  function Unbroken(s: string): string {
    if s == "" then ""
    else (if s[0] == '\r' || s[0] == '\n' then "" else [s[0]]) + Unbroken(s[1..])
  }

  function Decode(s: string): Option<seq<Byte>> {
    Quanta(Unbroken(s))
  }

  /** The bytes of one quantum of four characters; fewer than three when padded. */
  function Unpack(q: string): (b: Option<seq<Byte>>)
    requires |q| == 4
    ensures b.Some? ==> 1 <= |b.value| <= 3
  {
    var v0, v1 := ValueOf(q[0]), ValueOf(q[1]);
    if v0.None? || v1.None? then None
    else
      var b0: Byte := v0.value * 4 + v1.value / 16;
      if q[2] == '=' then
        if q[3] == '=' then Some([b0]) else None
      else
        var v2 := ValueOf(q[2]);
        if v2.None? then None
        else
          var b1: Byte := v1.value % 16 * 16 + v2.value / 4;
          if q[3] == '=' then Some([b0, b1])
          else
            var v3 := ValueOf(q[3]);
            if v3.None? then None
            else
              var b2: Byte := v2.value % 4 * 64 + v3.value;
              Some([b0, b1, b2])
  }

  /** Four characters at a time; only the last quantum may be padded. */
  function Quanta(s: string): Option<seq<Byte>> {
    if s == "" then Some([])
    else if |s| < 4 then None
    else
      var b := Unpack(s[..4]);
      if b.None? || |s| == 4 then b
      else if |b.value| < 3 then None
      else
        var rest := Quanta(s[4..]);
        if rest.None? then None else Some(b.value + rest.value)
  }

  const UPPER: string := "ABCDEFGHIJKLMNOPQRSTUVWXYZ"
  const LOWER: string := "abcdefghijklmnopqrstuvwxyz"
  const NUMERALS: string := "0123456789"

  /** Table 1 of RFC 4648. */
  const ALPHABET: string := UPPER + LOWER + NUMERALS + "+/"

  lemma UpperAt(i: nat)
    requires i < 26
    ensures UPPER[i] == 'A' + i as char
  {
    match i
    case 0 => case 1 => case 2 => case 3 => case 4 => case 5 => case 6 => case 7 => case 8 => case 9 => case 10 =>
    case 11 => case 12 => case 13 => case 14 => case 15 => case 16 => case 17 => case 18 => case 19 => case 20 =>
    case 21 => case 22 => case 23 => case 24 =>
    case _ =>
  }

  lemma LowerAt(i: nat)
    requires i < 26
    ensures LOWER[i] == 'a' + i as char
  {
    match i
    case 0 => case 1 => case 2 => case 3 => case 4 => case 5 => case 6 => case 7 => case 8 => case 9 => case 10 =>
    case 11 => case 12 => case 13 => case 14 => case 15 => case 16 => case 17 => case 18 => case 19 => case 20 =>
    case 21 => case 22 => case 23 => case 24 =>
    case _ =>
  }

  lemma NumeralAt(i: nat)
    requires i < 10
    ensures NUMERALS[i] == '0' + i as char
  {
    match i
    case 0 => case 1 => case 2 => case 3 => case 4 => case 5 => case 6 => case 7 => case 8 =>
    case _ =>
  }

  lemma DigitsAreTheAlphabet(v: Sextet)
    ensures |ALPHABET| == 64 && Digit(v) == ALPHABET[v]
  {
    if v < 26 {
      UpperAt(v);
    } else if v < 52 {
      LowerAt(v - 26);
    } else if v < 62 {
      NumeralAt(v - 52);
    }
  }

  lemma AlphabetHasValue(i: nat)
    requires i < 64
    ensures |ALPHABET| == 64 && ValueOf(ALPHABET[i]) == Some(i)
  {
    DigitsAreTheAlphabet(i);
    DigitHasValue(i);
  }

  lemma DigitOfValue(c: char)
    requires ValueOf(c).Some?
    ensures Digit(ValueOf(c).value) == c
  {
  }

  lemma ValuesInvertDigits(c: char)
    ensures ValueOf(c).Some? <==> c in ALPHABET
    ensures ValueOf(c).Some? ==> Digit(ValueOf(c).value) == c
  {
    if ValueOf(c).Some? {
      DigitOfValue(c);
      DigitsAreTheAlphabet(ValueOf(c).value);
    }
    if i :| 0 <= i < |ALPHABET| && ALPHABET[i] == c {
      AlphabetHasValue(i);
    }
  }

  /** Four digits as a number of 24 bits, the first one highest; padding counts as zero. */
  function Bits(q: string): int
    requires |q| == 4
  {
    var v := (c: char) => if ValueOf(c).Some? then ValueOf(c).value else 0;
    v(q[0]) * 262_144 + v(q[1]) * 4_096 + v(q[2]) * 64 + v(q[3])
  }

  /** Byte i as a number, zero beyond the end. */
  function ByteAt(b: seq<Byte>, i: nat): int {
    if i < |b| then b[i] else 0
  }

  /** Section 4 of RFC 4648: up to three bytes, the first one highest, are the number the
      four digits write, and each missing byte is one padding character. */
  lemma PackWritesTheNumber(b: seq<Byte>)
    requires 1 <= |b| <= 3
    ensures Bits(Pack(b)) == ByteAt(b, 0) * 65_536 + ByteAt(b, 1) * 256 + ByteAt(b, 2)
    ensures (Pack(b)[2] == '=' <==> |b| < 2) && (Pack(b)[3] == '=' <==> |b| < 3)
  {
    var x, y, z := ByteAt(b, 0), ByteAt(b, 1), ByteAt(b, 2);
    var v0, v1, v2, v3 := x / 4, x % 4 * 16 + y / 16, y % 16 * 4 + z / 64, z % 64;
    SextetsWriteTheNumber(x, y, z);
    DigitHasValue(v0);
    DigitHasValue(v1);
    DigitHasValue(v2);
    DigitHasValue(v3);
    assert ValueOf('=') == None;
    assert Pack(b) == [Digit(v0), Digit(v1), if |b| > 1 then Digit(v2) else '=', if |b| > 2 then Digit(v3) else '='];
  }

  lemma SextetsWriteTheNumber(x: Byte, y: Byte, z: Byte)
    ensures x / 4 * 262_144 + (x % 4 * 16 + y / 16) * 4_096 + (y % 16 * 4 + z / 64) * 64 + z % 64
         == (x as int) * 65_536 + (y as int) * 256 + z
  {
    assert x == x / 4 * 4 + x % 4 && y == y / 16 * 16 + y % 16 && z == z / 64 * 64 + z % 64;
  }

  /** The decoder reads that number, dropping what lies below the last whole byte. */
  lemma UnpackReadsTheNumber(q: string)
    requires |q| == 4 && Unpack(q).Some?
    ensures var b := Unpack(q).value;
      match |b|
      case 1 => ByteAt(b, 0) == Bits(q) / 65_536
      case 2 => ByteAt(b, 0) * 256 + ByteAt(b, 1) == Bits(q) / 256
      case _ => ByteAt(b, 0) * 65_536 + ByteAt(b, 1) * 256 + ByteAt(b, 2) == Bits(q)
  {
  }

  /** s is digits up to a padding of at most two characters, in whole quanta. */
  predicate WellPadded(s: string, pad: nat) {
    && pad <= 2 && pad <= |s| && |s| % 4 == 0
    && (forall i :: 0 <= i < |s| - pad ==> ValueOf(s[i]).Some?)
    && (forall i :: |s| - pad <= i < |s| ==> s[i] == '=')
  }

  lemma UnpackableIff(q: string, pad: nat)
    requires |q| == 4 && pad <= 2
    ensures Unpack(q).Some? && |Unpack(q).value| == 3 - pad <==> WellPadded(q, pad)
  {
    if WellPadded(q, pad) {
      assert ValueOf(q[0]).Some? && ValueOf(q[1]).Some?;
      assert pad < 2 ==> ValueOf(q[2]).Some?;
      assert pad < 1 ==> ValueOf(q[3]).Some?;
      assert pad > 0 ==> q[3] == '=';
      assert pad > 1 ==> q[2] == '=';
    }
  }

  lemma PaddedCons(q: string, rest: string, pad: nat)
    requires |q| == 4 && |rest| >= 4 && pad <= 2
    ensures WellPadded(q + rest, pad) <==> WellPadded(q, 0) && WellPadded(rest, pad)
  {
    var s := q + rest;
    if WellPadded(s, pad) {
      assert forall i :: 0 <= i < 4 ==> q[i] == s[i];
      assert forall i :: 0 <= i < |rest| ==> rest[i] == s[i + 4];
    }
  }

  lemma {:induction false} QuantaAcceptedIff(s: string, pad: nat)
    requires pad <= 2
    ensures Quanta(s).Some? && 4 * |Quanta(s).value| == 3 * |s| - 4 * pad <==> WellPadded(s, pad)
    decreases |s|
  {
    if s == "" || |s| < 4 {
    } else if |s| == 4 {
      assert s[..4] == s;
      UnpackableIff(s, pad);
    } else {
      var q, rest := s[..4], s[4..];
      assert q + rest == s;
      UnpackableIff(q, 0);
      QuantaAcceptedIff(rest, pad);
      if |rest| >= 4 {
        PaddedCons(q, rest, pad);
      }
    }
  }

  /** Every accepted text has one, two or no bytes fewer than its digits could hold. */
  lemma {:induction false} QuantaFill(s: string)
    requires Quanta(s).Some?
    ensures exists pad: nat :: pad <= 2 && 4 * |Quanta(s).value| == 3 * |s| - 4 * pad
    decreases |s|
  {
    var n := |Quanta(s).value|;
    if s == "" {
      assert 4 * n == 3 * |s| - 4 * 0;
    } else if |s| == 4 {
      assert 4 * n == 3 * |s| - 4 * (3 - n);
    } else {
      QuantaFill(s[4..]);
      var pad: nat :| pad <= 2 && 4 * |Quanta(s[4..]).value| == 3 * |s[4..]| - 4 * pad;
      assert 4 * n == 3 * |s| - 4 * pad;
    }
  }

  /** The decoder accepts exactly whole quanta of the alphabet with at most two padding
      characters at the very end, line breaks not counting. */
  lemma DecodableIff(s: string)
    ensures Decode(s).Some? <==>
      exists digits: string, pad: string ::
        && Unbroken(s) == digits + pad && |digits + pad| % 4 == 0
        && pad in {"", "=", "=="} && forall c <- digits :: c in ALPHABET
  {
    var u := Unbroken(s);
    if Quanta(u).Some? {
      QuantaFill(u);
      var k: nat :| k <= 2 && 4 * |Quanta(u).value| == 3 * |u| - 4 * k;
      QuantaAcceptedIff(u, k);
      CutPadding(u, k);
    }
    if digits: string, pad: string :|
      && u == digits + pad && |digits + pad| % 4 == 0
      && pad in {"", "=", "=="} && forall c <- digits :: c in ALPHABET
    {
      PutPadding(digits, pad);
      QuantaAcceptedIff(u, |pad|);
    }
  }

  lemma CutPadding(u: string, k: nat)
    requires WellPadded(u, k)
    ensures exists digits: string, pad: string ::
      && u == digits + pad && |digits + pad| % 4 == 0
      && pad in {"", "=", "=="} && forall c <- digits :: c in ALPHABET
  {
    var digits, pad := u[..|u| - k], u[|u| - k..];
    assert u == digits + pad;
    assert pad == if k == 0 then "" else if k == 1 then "=" else "==";
    forall c | c in digits
      ensures c in ALPHABET
    {
      ValuesInvertDigits(c);
    }
  }

  lemma PutPadding(digits: string, pad: string)
    requires |digits + pad| % 4 == 0 && pad in {"", "=", "=="} && forall c <- digits :: c in ALPHABET
    ensures WellPadded(digits + pad, |pad|)
  {
    forall i | 0 <= i < |digits|
      ensures ValueOf(digits[i]).Some?
    {
      assert digits[i] in digits;
      ValuesInvertDigits(digits[i]);
    }
  }

  lemma {:induction false} UnbrokenAppend(x: string, y: string)
    ensures Unbroken(x + y) == Unbroken(x) + Unbroken(y)
  {
    if x == "" {
      assert x + y == y;
    } else {
      UnbrokenAppend(x[1..], y);
      assert (x + y)[0] == x[0] && (x + y)[1..] == x[1..] + y;
      var head := if x[0] == '\r' || x[0] == '\n' then "" else [x[0]];
      UnbrokenConcat(head, Unbroken(x[1..]), Unbroken(y));
    }
  }

  lemma UnbrokenConcat(a: string, b: string, c: string)
    ensures a + (b + c) == (a + b) + c
  {
  }

  /** A line break anywhere never changes what is decoded. */
  lemma BreakIsNothing(x: string, c: char, y: string)
    requires c == '\r' || c == '\n'
    ensures Decode(x + [c] + y) == Decode(x + y)
  {
    UnbrokenAppend(x + [c], y);
    UnbrokenAppend(x, [c]);
    UnbrokenAppend(x, y);
    assert [c][1..] == "" && Unbroken([c]) == "" + Unbroken([c][1..]);
    assert Unbroken(x) + "" == Unbroken(x);
  }

  lemma DigitHasValue(v: Sextet)
    ensures ValueOf(Digit(v)) == Some(v)
    ensures Digit(v) != '=' && Digit(v) != '\r' && Digit(v) != '\n'
  {
  }

  lemma {:induction false} UnbrokenIsIdentity(s: string)
    requires '\r' !in s && '\n' !in s
    ensures Unbroken(s) == s
  {
    if s == "" {
    } else {
      UnbrokenIsIdentity(s[1..]);
      assert [s[0]] + s[1..] == s;
    }
  }

  lemma PackHasNoBreaks(b: seq<Byte>)
    requires 1 <= |b| <= 3
    ensures '\r' !in Pack(b) && '\n' !in Pack(b)
  {
  }

  lemma {:induction false} EncodeHasNoBreaks(b: seq<Byte>)
    ensures '\r' !in Encode(b) && '\n' !in Encode(b)
    ensures Encode(b) == "" <==> b == []
  {
    if b == [] {
    } else if |b| <= 3 {
      PackHasNoBreaks(b);
    } else {
      PackHasNoBreaks(b[..3]);
      EncodeHasNoBreaks(b[3..]);
    }
  }

  /** Three bytes cut into four sextets and put together again. */
  lemma Repack(x: Byte, y: Byte, z: Byte)
    ensures x / 4 * 4 + (x % 4 * 16 + y / 16) / 16 == x
    ensures (x % 4 * 16 + y / 16) % 16 * 16 + (y % 16 * 4 + z / 64) / 4 == y
    ensures (y % 16 * 4 + z / 64) % 4 * 64 + z % 64 == z
  {
  }

  lemma UnpackInvertsPack(b: seq<Byte>)
    requires 1 <= |b| <= 3
    ensures Unpack(Pack(b)) == Some(b)
  {
    var y, z := if |b| > 1 then b[1] else 0, if |b| > 2 then b[2] else 0;
    Repack(b[0], y, z);
    DigitHasValue(b[0] / 4);
    DigitHasValue(b[0] % 4 * 16 + y / 16);
    DigitHasValue(y % 16 * 4 + z / 64);
    DigitHasValue(z % 64);
    assert b == if |b| == 1 then [b[0]] else if |b| == 2 then [b[0], y] else [b[0], y, z];
  }

  lemma {:induction false} QuantaInvertEncode(b: seq<Byte>)
    ensures Quanta(Encode(b)) == Some(b)
  {
    if b == [] {
    } else if |b| <= 3 {
      UnpackInvertsPack(b);
      assert Pack(b)[..4] == Pack(b);
    } else {
      UnpackInvertsPack(b[..3]);
      QuantaInvertEncode(b[3..]);
      EncodeHasNoBreaks(b[3..]);
      QuantaCons(Pack(b[..3]), Encode(b[3..]));
      assert b[..3] + b[3..] == b;
    }
  }

  lemma QuantaCons(q: string, rest: string)
    requires |q| == 4 && Unpack(q).Some? && |Unpack(q).value| == 3 && rest != "" && Quanta(rest).Some?
    ensures Quanta(q + rest) == Some(Unpack(q).value + Quanta(rest).value)
  {
    assert (q + rest)[..4] == q && (q + rest)[4..] == rest;
  }

  /** Decoding inverts encoding for every byte string, the empty one included. */
  lemma DecodeInvertsEncode(b: seq<Byte>)
    ensures Decode(Encode(b)) == Some(b)
  {
    EncodeHasNoBreaks(b);
    UnbrokenIsIdentity(Encode(b));
    QuantaInvertEncode(b);
  }
}
