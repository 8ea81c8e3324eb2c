/** Base64 (modules/base64.c, section 3 of RFC 3548): what encoding and decoding compute, and
    that the one undoes the other.
 */
module Base64 {

  type Byte = x: int | 0 <= x < 256

  // ----- the alphabet

  /** BASE64_CHARS[v] */
  function Symbol(v: int): char
    requires 0 <= v < 64
  {
    if v < 26 then ('A' as int + v) as char
    else if v < 52 then ('a' as int + v - 26) as char
    else if v < 62 then ('0' as int + v - 52) as char
    else if v == 62 then '+'
    else '/'
  }

  /** _base64_char_value */
  function CharValue(c: char): int {
    if 'A' <= c <= 'Z' then c as int - 'A' as int
    else if 'a' <= c <= 'z' then c as int - 'a' as int + 26
    else if '0' <= c <= '9' then c as int - '0' as int + 52
    else if c == '+' then 62
    else if c == '/' then 63
    else -1
  }

  const UPPER := "ABCDEFGHIJKLMNOPQRSTUVWXYZ"
  const LOWER := "abcdefghijklmnopqrstuvwxyz"
  const DIGITS := "0123456789"
  const ALPHABET := UPPER + LOWER + DIGITS + "+/"

  /** The alphabet is that of table 1 of RFC 3548. */
  lemma Alphabet(v: nat)
    requires v < 64
    ensures |ALPHABET| == 64 && Symbol(v) == ALPHABET[v]
  {
    if v < 26 {
      assert Symbol(v) == UPPER[v];
    } else if v < 52 {
      assert Symbol(v) == LOWER[v - 26];
    } else if v < 62 {
      assert Symbol(v) == DIGITS[v - 52];
    }
  }

  /** The two tables are inverse to each other. */
  lemma SymbolValue(v: int, c: char)
    requires 0 <= v < 64
    ensures CharValue(Symbol(v)) == v && Symbol(v) != '='
    ensures 0 <= CharValue(c) ==> CharValue(c) < 64 && Symbol(CharValue(c)) == c
  {
  }

  // ----- three bytes, four characters

  /** _base64_encode_triple: the digits of the 24-bit number in base 64 */
  function Quad(a: Byte, b: Byte, c: Byte): (q: string)
    ensures |q| == 4
  {
    var v := (a * 256 + b) * 256 + c;
    [Symbol(v / 64 / 64 / 64 % 64), Symbol(v / 64 / 64 % 64), Symbol(v / 64 % 64), Symbol(v % 64)]
  }

  /** The four groups of six bits of three bytes, from the left. */
  lemma QuadIsSixBitGroups(a: Byte, b: Byte, c: Byte)
    ensures Quad(a, b, c) == [Symbol(a / 4), Symbol(a % 4 * 16 + b / 16), Symbol(b % 16 * 4 + c / 64), Symbol(c % 64)]
  {
    var v := (a * 256 + b) * 256 + c;
    assert v / 64 == a * 1024 + b * 4 + c / 64;
    assert v / 64 / 64 == a * 16 + b / 16;
    assert v / 64 / 64 / 64 == a / 4;
  }

  // ----- encoding

  function Encode(s: seq<Byte>): string {
    if |s| >= 3 then Quad(s[0], s[1], s[2]) + Encode(s[3..])
    else if |s| == 2 then Quad(s[0], s[1], 0)[..3] + "="
    else if |s| == 1 then Quad(s[0], 0, 0)[..2] + "=="
    else ""
  }

  lemma OneMoreThird(n: nat)
    requires n >= 3
    ensures (n + 2) / 3 * 4 == (n - 3 + 2) / 3 * 4 + 4
  {
    assert (n + 2) / 3 == (n - 3 + 2) / 3 + 1;
  }

  lemma {:induction false} EncodeLength(s: seq<Byte>)
    ensures |Encode(s)| == (|s| + 2) / 3 * 4
  {
    if |s| < 3 {
    } else {
      EncodeLength(s[3..]);
      OneMoreThird(|s|);
    }
  }

  // ----- decoding

  const PAD := "===="

  /** The number of '=' at the end. */
  function Padding(q: string): (n: nat)
    ensures n <= |q| && (n < |q| ==> q[|q| - 1 - n] != '=')
    ensures forall k :: |q| - n <= k < |q| ==> q[k] == '='
  {
    if q == [] || q[|q| - 1] != '=' then 0 else 1 + Padding(q[..|q| - 1])
  }

  function DigitOf(c: char): int {
    if CharValue(c) < 0 then 0 else CharValue(c)
  }

  function QuadValue(q: string): int
    requires |q| == 4
  {
    ((DigitOf(q[0]) * 64 + DigitOf(q[1])) * 64 + DigitOf(q[2])) * 64 + DigitOf(q[3])
  }

  /** `v` without its last `k` bytes. */
  function Shift(v: int, k: nat): int {
    if k == 0 then v else Shift(v, k - 1) / 256
  }

  /** _base64_decode_triple: the bytes of four characters, none when they are malformed */
  function DecodeQuad(q: string): (r: seq<Byte>)
    requires |q| == 4
    ensures |r| <= 3 && (|r| == 3 ==> q[3] != '=')
  {
    var e := Padding(q);
    if exists k :: 0 <= k < 4 - e && CharValue(q[k]) < 0 then []
    else
      var v := QuadValue(q);
      [Shift(v, 2) % 256, Shift(v, 1) % 256, Shift(v, 0) % 256][..if e > 3 then 0 else 3 - e]
  }

  predicate Significant(c: char) {
    c == '=' || CharValue(c) >= 0
  }

  /** The characters that are not skipped. */
  function Kept(s: string): string {
    if s == [] then []
    else if Significant(s[0]) then [s[0]] + Kept(s[1..])
    else Kept(s[1..])
  }

  /** Four characters at a time, until they give fewer than three bytes. */
  function DecodeKept(cs: string): seq<Byte> {
    if |cs| < 4 then []
    else
      var t := DecodeQuad(cs[..4]);
      if |t| == 3 then t + DecodeKept(cs[4..]) else t
  }

  /** What base64_decode makes of a string, given room. */
  function Decode(source: string): seq<Byte> {
    DecodeKept(Kept(source + PAD))
  }

  lemma {:induction false} KeptConcat(a: string, b: string)
    ensures Kept(a + b) == Kept(a) + Kept(b)
  {
    if a == [] {
      assert a + b == b;
    } else {
      assert (a + b)[1..] == a[1..] + b;
      KeptConcat(a[1..], b);
    }
  }

  lemma {:induction false} KeptAll(s: string)
    requires forall k :: 0 <= k < |s| ==> Significant(s[k])
    ensures Kept(s) == s
  {
    if s == [] {
    } else {
      KeptAll(s[1..]);
    }
  }

  /** Characters outside the alphabet make no difference. */
  lemma NoiseIsSkipped(a: string, noise: string, b: string)
    requires forall k :: 0 <= k < |noise| ==> !Significant(noise[k])
    ensures Decode(a + noise + b) == Decode(a + b)
  {
    KeptNone(noise);
    KeptConcat(a + noise + b, PAD);
    KeptConcat(a + noise, b);
    KeptConcat(a, noise);
    KeptConcat(a + b, PAD);
    KeptConcat(a, b);
    assert Kept(a) + [] + Kept(b) == Kept(a) + Kept(b);
  }

  lemma {:induction false} KeptNone(s: string)
    requires forall k :: 0 <= k < |s| ==> !Significant(s[k])
    ensures Kept(s) == []
  {
    if s == [] {
    } else {
      KeptNone(s[1..]);
    }
  }

  // ----- round trip

  lemma ShiftIs(v: int)
    requires v >= 0
    ensures Shift(v, 1) == v / 256 && Shift(v, 2) == v / 65536
  {
    assert Shift(v, 0) == v;
    assert Shift(v, 2) == Shift(v, 1) / 256;
  }

  /** The digits of a number put together again. */
  lemma DigitsJoin(v: int)
    requires 0 <= v < 16777216
    ensures ((v / 64 / 64 / 64 % 64 * 64 + v / 64 / 64 % 64) * 64 + v / 64 % 64) * 64 + v % 64 == v
  {
  }

  lemma QuadDigits(a: Byte, b: Byte, c: Byte)
    ensures QuadValue(Quad(a, b, c)) == a * 65536 + b * 256 + c
    ensures forall k :: 0 <= k < 4 ==> CharValue(Quad(a, b, c)[k]) >= 0 && Quad(a, b, c)[k] != '='
  {
    var v := (a * 256 + b) * 256 + c;
    SymbolValue(v / 64 / 64 / 64 % 64, 'A');
    SymbolValue(v / 64 / 64 % 64, 'A');
    SymbolValue(v / 64 % 64, 'A');
    SymbolValue(v % 64, 'A');
    DigitsJoin(v);
  }

  lemma BytesSplit(a: Byte, b: Byte, c: Byte)
    ensures var v := a * 65536 + b * 256 + c;
      [Shift(v, 2) % 256, Shift(v, 1) % 256, Shift(v, 0) % 256] == [a, b, c]
  {
    var v := a * 65536 + b * 256 + c;
    ShiftIs(v);
    assert v / 256 == a * 256 + b;
    assert v / 65536 == a;
  }

  lemma DecodeThree(a: Byte, b: Byte, c: Byte)
    ensures DecodeQuad(Quad(a, b, c)) == [a, b, c]
  {
    QuadDigits(a, b, c);
    BytesSplit(a, b, c);
  }

  /** Valid characters, of which the last `n` are replaced by padding. */
  lemma DecodePadded(q: string, p: string, n: nat)
    requires |q| == 4 && 1 <= n <= 2 && p == q[..4 - n] + PAD[..n]
    requires forall k :: 0 <= k < 4 ==> CharValue(q[k]) >= 0 && q[k] != '='
    requires forall k :: 4 - n <= k < 4 ==> CharValue(q[k]) == 0
    ensures var v := QuadValue(q);
      DecodeQuad(p) == [Shift(v, 2) % 256, Shift(v, 1) % 256, Shift(v, 0) % 256][..3 - n]
  {
    assert forall k :: 0 <= k < 4 - n ==> p[k] == q[k];
    assert forall k :: 4 - n <= k < 4 ==> p[k] == '=';
    assert p[3 - n] != '=';
    assert Padding(p) == n;
    assert forall k :: 0 <= k < 4 ==> DigitOf(p[k]) == DigitOf(q[k]);
    assert QuadValue(p) == QuadValue(q);
  }

  lemma DecodeTwo(a: Byte, b: Byte)
    ensures DecodeQuad(Quad(a, b, 0)[..3] + "=") == [a, b]
  {
    var q := Quad(a, b, 0);
    QuadDigits(a, b, 0);
    QuadEndsInZero(a, b);
    assert PAD[..1] == "=";
    DecodePadded(q, q[..3] + "=", 1);
    BytesSplit(a, b, 0);
  }

  lemma DecodeOne(a: Byte)
    ensures DecodeQuad(Quad(a, 0, 0)[..2] + "==") == [a]
  {
    var q := Quad(a, 0, 0);
    QuadDigits(a, 0, 0);
    QuadEndsInZero(a, 0);
    assert PAD[..2] == "==";
    DecodePadded(q, q[..2] + "==", 2);
    BytesSplit(a, 0, 0);
  }

  lemma QuadEndsInZero(a: Byte, b: Byte)
    ensures CharValue(Quad(a, b, 0)[3]) == 0 && (b == 0 ==> CharValue(Quad(a, b, 0)[2]) == 0)
  {
    QuadIsSixBitGroups(a, b, 0);
    SymbolValue(0, 'A');
  }

  /** The encoding without its padding. */
  function Unpadded(s: seq<Byte>): string {
    if |s| >= 3 then Quad(s[0], s[1], s[2]) + Unpadded(s[3..])
    else if |s| == 2 then Quad(s[0], s[1], 0)[..3]
    else if |s| == 1 then Quad(s[0], 0, 0)[..2]
    else ""
  }

  lemma DecodeKeptStep(q: string, rest: string)
    requires |q| == 4
    ensures DecodeKept(q + rest) == if |DecodeQuad(q)| == 3 then DecodeQuad(q) + DecodeKept(rest) else DecodeQuad(q)
  {
    assert (q + rest)[..4] == q && (q + rest)[4..] == rest;
  }

  /** Padding that is cut off is supplied again. */
  lemma DecodeKeptLast(u: string, e: string, t: seq<Byte>)
    requires |u| <= 4 && e == u + PAD[|u|..] && DecodeQuad(e) == t && |t| < 3
    ensures DecodeKept(e + PAD) == t && DecodeKept(u + PAD) == t
  {
    DecodeKeptStep(e, PAD);
    DecodeKeptStep(e, PAD[..|u|]);
    assert u + PAD == e + PAD[..|u|];
  }

  lemma DecodeKeptFull(q: string, t: seq<Byte>, e: string, s: seq<Byte>, more: string)
    requires |q| == 4 && DecodeQuad(q) == t && |t| == 3 && DecodeKept(e + more) == s
    ensures DecodeKept(q + e + more) == t + s
  {
    DecodeKeptStep(q, e + more);
    assert q + e + more == q + (e + more);
  }

  /** `e` and `u` decode to `s` once the padding is appended. */
  predicate Decodes(e: string, u: string, s: seq<Byte>) {
    DecodeKept(e + PAD) == s && DecodeKept(u + PAD) == s
  }

  lemma TwoDecode(a: Byte, b: Byte)
    ensures Decodes(Quad(a, b, 0)[..3] + "=", Quad(a, b, 0)[..3], [a, b])
  {
    DecodeTwo(a, b);
    var u := Quad(a, b, 0)[..3];
    assert PAD[|u|..] == "=";
    DecodeKeptLast(u, u + "=", [a, b]);
  }

  lemma OneDecodes(a: Byte)
    ensures Decodes(Quad(a, 0, 0)[..2] + "==", Quad(a, 0, 0)[..2], [a])
  {
    DecodeOne(a);
    var u := Quad(a, 0, 0)[..2];
    assert PAD[|u|..] == "==";
    DecodeKeptLast(u, u + "==", [a]);
  }

  lemma NoneDecodes()
    ensures Decodes("", "", [])
  {
    assert PAD[0..] == PAD && "" + PAD == PAD;
    DecodeKeptLast("", PAD, []);
  }

  lemma ThreeDecode(a: Byte, b: Byte, c: Byte, e: string, u: string, s: seq<Byte>)
    requires Decodes(e, u, s)
    ensures Decodes(Quad(a, b, c) + e, Quad(a, b, c) + u, [a, b, c] + s)
  {
    DecodeThree(a, b, c);
    DecodeKeptFull(Quad(a, b, c), [a, b, c], e, s, PAD);
    DecodeKeptFull(Quad(a, b, c), [a, b, c], u, s, PAD);
  }

  lemma {:induction false} EncodeDecodes(s: seq<Byte>)
    ensures Decodes(Encode(s), Unpadded(s), s)
  {
    if |s| >= 3 {
      EncodeDecodes(s[3..]);
      ThreeDecode(s[0], s[1], s[2], Encode(s[3..]), Unpadded(s[3..]), s[3..]);
      assert s == [s[0], s[1], s[2]] + s[3..];
    } else if |s| == 2 {
      TwoDecode(s[0], s[1]);
      assert s == [s[0], s[1]];
    } else if |s| == 1 {
      OneDecodes(s[0]);
      assert s == [s[0]];
    } else {
      NoneDecodes();
    }
  }

  lemma {:induction false} EncodeSignificant(s: seq<Byte>)
    ensures forall k :: 0 <= k < |Encode(s)| ==> Significant(Encode(s)[k])
    ensures forall k :: 0 <= k < |Unpadded(s)| ==> Significant(Unpadded(s)[k])
  {
    if |s| == 0 {
    } else if |s| == 1 {
      QuadDigits(s[0], 0, 0);
    } else if |s| == 2 {
      QuadDigits(s[0], s[1], 0);
    } else {
      QuadDigits(s[0], s[1], s[2]);
      EncodeSignificant(s[3..]);
    }
  }

  /** Decoding the encoding of any bytes gives those bytes, with or without the padding. */
  lemma RoundTrip(s: seq<Byte>)
    ensures Decode(Encode(s)) == s && Decode(Unpadded(s)) == s
  {
    EncodeSignificant(s);
    KeptAll(Encode(s));
    KeptAll(Unpadded(s));
    KeptConcat(Encode(s), PAD);
    KeptConcat(Unpadded(s), PAD);
    KeptAll(PAD);
    EncodeDecodes(s);
  }

  // ----- what is malformed

  /** A character of the alphabet. */
  predicate InAlphabet(c: char) {
    c in ALPHABET
  }

  lemma ValueIff(c: char)
    ensures CharValue(c) >= 0 <==> InAlphabet(c)
  {
    var table := ALPHABET;
    if CharValue(c) >= 0 {
      SymbolValue(CharValue(c), c);
      Alphabet(CharValue(c));
      assert table[CharValue(c)] == c;
    }
    if c in table {
      var v :| 0 <= v < |table| && table[v] == c;
      Alphabet(v);
      SymbolValue(v, c);
    }
  }

  lemma PaddingIs(q: string)
    requires |q| == 4
    ensures Padding(q) == if q[3] != '=' then 0 else if q[2] != '=' then 1 else if q[1] != '=' then 2
                          else if q[0] != '=' then 3 else 4
  {
  }

  lemma LengthByPadding(q: string)
    requires |q| == 4
    ensures var e := Padding(q);
      |DecodeQuad(q)| == if e > 2 || exists k :: 0 <= k < 4 - e && CharValue(q[k]) < 0 then 0 else 3 - e
  {
    PaddingIs(q);
  }

  lemma LengthByValue(q: string)
    requires |q| == 4
    ensures |DecodeQuad(q)| ==
              if CharValue(q[0]) < 0 || CharValue(q[1]) < 0 then 0
              else if CharValue(q[2]) >= 0 && CharValue(q[3]) >= 0 then 3
              else if CharValue(q[2]) >= 0 && q[3] == '=' then 2
              else if q[2] == '=' && q[3] == '=' then 1
              else 0
  {
    LengthByPadding(q);
    PaddingIs(q);
  }

  /** Four characters give three, two or one bytes if they are symbols but for no, one or two '='
      at the end, and otherwise none. */
  lemma QuadLength(q: string)
    requires |q| == 4
    ensures |DecodeQuad(q)| ==
              if !InAlphabet(q[0]) || !InAlphabet(q[1]) then 0
              else if InAlphabet(q[2]) && InAlphabet(q[3]) then 3
              else if InAlphabet(q[2]) && q[3] == '=' then 2
              else if q[2] == '=' && q[3] == '=' then 1
              else 0
  {
    ValueIff(q[0]);
    ValueIff(q[1]);
    ValueIff(q[2]);
    ValueIff(q[3]);
    LengthByValue(q);
  }

  /** What follows a padded quad is not decoded. */
  lemma {:induction false} PaddingEnds(s: seq<Byte>, more: string)
    requires |s| % 3 != 0
    ensures DecodeKept(Encode(s) + more) == s
  {
    if |s| == 1 {
      DecodeOne(s[0]);
      DecodeKeptStep(Encode(s), more);
    } else if |s| == 2 {
      DecodeTwo(s[0], s[1]);
      DecodeKeptStep(Encode(s), more);
    } else {
      PaddingEnds(s[3..], more);
      OneMoreQuad(s, more, s[3..]);
    }
  }

  lemma OneMoreQuad(s: seq<Byte>, more: string, tail: seq<Byte>)
    requires |s| >= 3 && tail == s[3..] && DecodeKept(Encode(tail) + more) == tail
    ensures DecodeKept(Encode(s) + more) == s
  {
    DecodeThree(s[0], s[1], s[2]);
    DecodeKeptFull(Quad(s[0], s[1], s[2]), [s[0], s[1], s[2]], Encode(tail), tail, more);
    assert s == [s[0], s[1], s[2]] + tail;
  }

  /** So an encoding that was padded may be followed by anything. */
  lemma DecodeStops(s: seq<Byte>, more: string)
    requires |s| % 3 != 0
    ensures Decode(Encode(s) + more) == s
  {
    EncodeSignificant(s);
    KeptAll(Encode(s));
    KeptConcat(Encode(s), more + PAD);
    assert Encode(s) + more + PAD == Encode(s) + (more + PAD);
    PaddingEnds(s, Kept(more + PAD));
  }
}
