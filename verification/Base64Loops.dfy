/** base64_encode and base64_decode as the source runs them, over buffers with advancing
    positions (modules/base64.c:15-201).
 */
module Base64Loops {
  import opened Base64

  // ----- encoding

  /** The n-th digit of v in base 64, from the right. */
  function Digits(v: int, n: nat): int {
    if n == 0 then v else Digits(v, n - 1) / 64
  }

  lemma DigitsAre(v: int)
    ensures Digits(v, 0) == v && Digits(v, 1) == v / 64
    ensures Digits(v, 2) == v / 64 / 64 && Digits(v, 3) == v / 64 / 64 / 64
  {
    assert Digits(v, 3) == Digits(v, 2) / 64;
    assert Digits(v, 2) == Digits(v, 1) / 64;
  }

  /** _base64_encode_triple */
  method EncodeTriple(a: Byte, b: Byte, c: Byte, target: array<char>, at: nat)
    requires at + 4 <= target.Length
    modifies target
    ensures target[..at + 4] == old(target[..at]) + Quad(a, b, c) && target[at + 4..] == old(target[at + 4..])
  {
    var v := (a * 256 + b) * 256 + c;
    ghost var v0 := v;
    DigitsAre(v0);
    var i := 0;
    while i < 4
      invariant 0 <= i <= 4 && v == Digits(v0, i)
      invariant forall k :: 0 <= k < i ==> target[at + 3 - k] == Symbol(Digits(v0, k) % 64)
      invariant forall k :: 0 <= k < target.Length && !(at <= k < at + 4) ==> target[k] == old(target[k])
    {
      target[at + 3 - i] := Symbol(v % 64);
      v := v / 64;
      i := i + 1;
    }
    assert target[at + 3 - 0] == Symbol(Digits(v0, 0) % 64);
    assert target[at + 3 - 1] == Symbol(Digits(v0, 1) % 64);
    assert target[at + 3 - 2] == Symbol(Digits(v0, 2) % 64);
    assert target[at + 3 - 3] == Symbol(Digits(v0, 3) % 64);
    assert target[at..at + 4] == Quad(a, b, c);
    assert target[..at + 4] == target[..at] + target[at..at + 4];
  }

  lemma {:induction false} EncodeAppend(s: seq<Byte>, t: seq<Byte>)
    requires |s| % 3 == 0
    ensures Encode(s + t) == Encode(s) + Encode(t)
  {
    if s == [] {
      assert s + t == t;
    } else {
      assert (s + t)[3..] == s[3..] + t;
      EncodeAppend(s[3..], t);
    }
  }

  lemma EncodeThree(a: Byte, b: Byte, c: Byte)
    ensures Encode([a, b, c]) == Quad(a, b, c)
  {
    assert [a, b, c][3..] == [];
  }

  /** The loop over full triples. */
  method EncodeTriples(source: seq<Byte>, target: array<char>) returns (i: nat, at: nat)
    requires |Encode(source)| < target.Length
    modifies target
    ensures i <= |source| < i + 3 && i % 3 == 0
    ensures at == |Encode(source[..i])| && at + |Encode(source[i..])| == |Encode(source)|
    ensures target[..at] == Encode(source[..i]) && target[at..] == old(target[at..])
  {
    i, at := 0, 0;
    assert source[..0] == [];
    Parts(source, 0);
    while |source| - i >= 3
      invariant i <= |source| && i % 3 == 0
      invariant at == |Encode(source[..i])| && at + |Encode(source[i..])| == |Encode(source)|
      invariant target[..at] == Encode(source[..i]) && target[at..] == old(target[at..])
    {
      ghost var was := target[at..];
      EncodeNext(source, i);
      Parts(source, i + 3);
      assert was[4..] == target[at + 4..];
      EncodeTriple(source[i], source[i + 1], source[i + 2], target, at);
      i := i + 3;
      at := at + 4;
    }
  }

  lemma Parts(source: seq<Byte>, i: nat)
    requires i % 3 == 0 && i <= |source|
    ensures Encode(source) == Encode(source[..i]) + Encode(source[i..])
  {
    assert source == source[..i] + source[i..];
    EncodeAppend(source[..i], source[i..]);
  }

  /** The last one or two bytes, padded. */
  method EncodeLast(last: seq<Byte>, target: array<char>, at: nat)
    requires 1 <= |last| <= 2 && at + 4 <= target.Length
    modifies target
    ensures target[..at + 4] == old(target[..at]) + Encode(last) && target[at + 4..] == old(target[at + 4..])
  {
    var b := if |last| == 2 then last[1] else 0;
    EncodeTriple(last[0], b, 0, target, at);
    ghost var q := Quad(last[0], b, 0);
    assert target[..at + 4][at..] == q && target[..at + 4][..at] == target[..at];
    target[at + 3] := '=';
    if |last| == 1 {
      target[at + 2] := '=';
    }
    assert target[at..at + 4] == Encode(last);
    assert target[..at + 4] == target[..at] + target[at..at + 4];
  }

  /** All the characters of the encoding. */
  method EncodeInto(source: seq<Byte>, target: array<char>) returns (at: nat)
    requires |Encode(source)| < target.Length
    modifies target
    ensures at == |Encode(source)|
    ensures target[..at] == Encode(source) && target[at..] == old(target[at..])
  {
    var i;
    i, at := EncodeTriples(source, target);
    Parts(source, i);
    var last := source[i..];
    if i < |source| {
      EncodeLength(last);
      assert target[at + 4..] == target[at..][4..] == old(target[at..])[4..] == old(target[at + 4..]);
      EncodeLast(last, target, at);
      at := at + 4;
    } else {
      assert Encode(last) == [];
    }
  }

  /** base64_encode; the length test wraps around for a target of length 0 */
  method Base64Encode(source: seq<Byte>, target: array<char>) returns (ok: bool)
    requires target.Length >= 1
    modifies target
    ensures ok <==> |Encode(source)| < target.Length
    ensures ok ==> target[..|Encode(source)|] == Encode(source) && target[|Encode(source)|] == '\0'
    ensures ok ==> target[|Encode(source)| + 1..] == old(target[..])[|Encode(source)| + 1..]
    ensures !ok ==> target[..] == old(target[..])
  {
    EncodeLength(source);
    if (|source| + 2) / 3 * 4 > target.Length - 1 {
      return false;
    }
    var at := EncodeInto(source, target);
    assert target[at + 1..] == target[at..][1..] == old(target[..])[at + 1..];
    target[at] := '\0';
    return true;
  }

  lemma EncodeNext(source: seq<Byte>, i: nat)
    requires i % 3 == 0 && i + 3 <= |source|
    ensures Encode(source[..i + 3]) == Encode(source[..i]) + Quad(source[i], source[i + 1], source[i + 2])
  {
    assert source[..i + 3] == source[..i] + [source[i], source[i + 1], source[i + 2]];
    EncodeAppend(source[..i], [source[i], source[i + 1], source[i + 2]]);
    EncodeThree(source[i], source[i + 1], source[i + 2]);
  }

  const SIZE := 0x1_0000_0000_0000_0000

  /** The length test as size_t arithmetic does it. */
  predicate TestPasses(sourcelen: nat, targetlen: nat) {
    (sourcelen + 2) / 3 * 4 <= (if targetlen == 0 then SIZE - 1 else targetlen - 1)
  }

  /** A passed test leaves room for the encoding and its terminator exactly when there is a
      target at all: with length 0 the subtraction wraps around and the test passes. */
  lemma TestIsSafeIff(source: seq<Byte>, targetlen: nat)
    requires |source| < SIZE / 4 && targetlen < SIZE
    ensures TestPasses(|source|, targetlen) ==> (|Encode(source)| + 1 <= targetlen <==> targetlen >= 1)
    ensures TestPasses(|source|, 0)
  {
    EncodeLength(source);
    var n := (|source| + 2) / 3;
    assert 3 * n <= |source| + 2;
  }

  // ----- decoding

  /** The check of the four characters, from the right: whether they are well formed,
      and how many bytes they give. */
  method CheckQuad(q: array<char>, value: array<int>) returns (ok: bool, bytes: int)
    requires q.Length == 4 && value.Length == 4 && forall k :: 0 <= k < 4 ==> value[k] == CharValue(q[k])
    modifies value
    ensures ok <==> !exists k :: 0 <= k < 4 - Padding(q[..]) && CharValue(q[k]) < 0
    ensures ok ==> bytes == 3 - Padding(q[..]) && forall k :: 0 <= k < 4 ==> value[k] == DigitOf(q[k])
  {
    var onlyEquals := true;
    ok, bytes := true, 3;
    ghost var e: int := Padding(q[..]);
    var i := 3;
    while i >= 0
      invariant -1 <= i <= 3 && ok
      invariant onlyEquals ==> bytes == i && e >= 3 - i
      invariant !onlyEquals ==> bytes == 3 - e && i < 3 - e
      invariant forall k :: 0 <= k <= i ==> value[k] == CharValue(q[k])
      invariant forall k :: i < k < 4 ==> value[k] == DigitOf(q[k]) && (k < 4 - e ==> CharValue(q[k]) >= 0)
    {
      if value[i] < 0 {
        if onlyEquals && q[i] == '=' {
          assert e >= 4 - i;
          value[i] := 0;
          bytes := bytes - 1;
        } else {
          assert i < 4 - e;
          return false, 0;
        }
      } else {
        onlyEquals := false;
      }
      i := i - 1;
    }
  }

  /** The bytes of the 24-bit number, without those that the padding stands for. */
  method TopBytes(v0: int, bytes: nat) returns (result: seq<Byte>)
    requires bytes <= 3
    ensures result == [Shift(v0, 2) % 256, Shift(v0, 1) % 256, Shift(v0, 0) % 256][..bytes]
  {
    var v := v0;
    var i := bytes;
    while i < 3
      invariant bytes <= i <= 3 && v == Shift(v0, i - bytes)
    {
      v := v / 256;
      i := i + 1;
    }
    result := [];
    while i > 3 - bytes
      invariant 3 - bytes <= i <= 3 && v == Shift(v0, 6 - bytes - i) && |result| == 3 - i
      invariant forall k :: 0 <= k < 3 - i ==> result[k] == Shift(v0, 2 - (bytes + i - 3 + k)) % 256
    {
      result := [v % 256] + result;
      v := v / 256;
      i := i - 1;
    }
  }

  /** _base64_decode_triple */
  method DecodeTriple(q: array<char>) returns (result: seq<Byte>)
    requires q.Length == 4
    ensures result == DecodeQuad(q[..])
  {
    var value := new int[4];
    var i := 0;
    while i < 4
      invariant 0 <= i <= 4 && forall k :: 0 <= k < i ==> value[k] == CharValue(q[k])
    {
      value[i] := CharValue(q[i]);
      i := i + 1;
    }
    var ok, bytes := CheckQuad(q, value);
    if !ok {
      return [];
    }
    if bytes < 0 {
      bytes := 0;
    }
    var v := ((value[0] * 64 + value[1]) * 64 + value[2]) * 64 + value[3];
    assert v == QuadValue(q[..]);
    result := TopBytes(v, bytes);
  }

  /** The string with the padding that base64_decode appends. */
  predicate Padded(src: string, n: nat) {
    |src| == n + 4 && forall k :: n <= k < n + 4 ==> src[k] == '='
  }

  lemma KeptFrom(src: string, p: nat)
    requires p < |src|
    ensures Kept(src[p..]) == if Significant(src[p]) then [src[p]] + Kept(src[p + 1..]) else Kept(src[p + 1..])
  {
    assert src[p..][0] == src[p] && src[p..][1..] == src[p + 1..];
  }

  /** Skips the characters that do not count; the appended padding stops it. */
  method Skip(src: string, n: nat, p0: nat) returns (p: nat)
    requires Padded(src, n) && p0 < n + 4
    ensures p0 <= p < n + 4 && (p == p0 || p <= n) && Significant(src[p])
    ensures Kept(src[p0..]) == [src[p]] + Kept(src[p + 1..])
  {
    p := p0;
    while src[p] != '=' && CharValue(src[p]) < 0
      invariant p0 <= p < n + 4 && (p == p0 || p <= n)
      invariant Kept(src[p0..]) == Kept(src[p..])
      decreases n + 4 - p
    {
      KeptFrom(src, p);
      p := p + 1;
    }
    KeptFrom(src, p);
  }

  /** Reads the next four characters that count; stays within the appended padding. */
  method ReadQuad(src: string, n: nat, p0: nat, q: array<char>) returns (p: nat)
    requires q.Length == 4 && Padded(src, n) && p0 <= n
    modifies q
    ensures p0 < p <= n + 4 && (p > n ==> q[3] == '=')
    ensures Kept(src[p0..]) == q[..] + Kept(src[p..])
  {
    p := p0;
    var i := 0;
    while i < 4
      invariant 0 <= i <= 4 && p0 + i <= p <= n + i && (p > n ==> i > 0 && q[i - 1] == '=')
      invariant Kept(src[p0..]) == q[..i] + Kept(src[p..])
    {
      ghost var was := q[..i];
      p := Skip(src, n, p);
      q[i] := src[p];
      Joined(was, src[p], Kept(src[p + 1..]), q[..i + 1]);
      i := i + 1;
      p := p + 1;
    }
    assert q[..4] == q[..];
  }

  lemma Joined(was: string, c: char, rest: string, now: string)
    requires now == was + [c]
    ensures was + ([c] + rest) == now + rest
  {
  }

  function Zeros(n: nat): seq<Byte> {
    seq(n, _ => 0)
  }

  /** The buffer holds `done` and is zero from there on. */
  ghost predicate Holds(buffer: seq<Byte>, done: seq<Byte>) {
    |done| <= |buffer| && buffer == done + Zeros(|buffer| - |done|)
  }

  lemma HoldsOneMore(buffer: seq<Byte>, done: seq<Byte>, b: Byte)
    requires Holds(buffer, done) && |done| < |buffer|
    ensures Holds(buffer[|done| := b], done + [b])
  {
  }

  /** memcpy of a partial result */
  method Store(target: array<Byte>, t: seq<Byte>, at: nat, ghost done: seq<Byte>)
    requires Holds(target[..], done) && at == |done| && at + |t| <= target.Length
    modifies target
    ensures Holds(target[..], done + t)
  {
    var i := 0;
    assert done + t[..0] == done;
    while i < |t|
      invariant 0 <= i <= |t| && Holds(target[..], done + t[..i])
    {
      HoldsOneMore(target[..], done + t[..i], t[i]);
      assert done + t[..i] + [t[i]] == done + t[..i + 1];
      ghost var next := target[..][at + i := t[i]];
      target[at + i] := t[i];
      assert target[..] == next;
      i := i + 1;
    }
    assert t[..i] == t;
  }

  /** What is left to decode after `done`, when the next four characters are `q`. */
  lemma OneQuad(all: seq<Byte>, done: seq<Byte>, kept: string, q: string, rest: string)
    requires |q| == 4 && kept == q + rest && all == done + DecodeKept(kept)
    ensures var t := DecodeQuad(q);
      && |done| + |t| <= |all|
      && all == if |t| == 3 then done + t + DecodeKept(rest) else done + t
  {
    DecodeKeptStep(q, rest);
    Assoc(done, DecodeQuad(q), DecodeKept(rest));
  }

  lemma Assoc(a: seq<Byte>, b: seq<Byte>, c: seq<Byte>)
    ensures a + (b + c) == a + b + c
  {
  }

  /** memset of the target */
  method Wipe(target: array<Byte>)
    modifies target
    ensures Holds(target[..], [])
  {
    var i := 0;
    while i < target.Length
      invariant 0 <= i <= target.Length && forall k :: 0 <= k < i ==> target[k] == 0
    {
      target[i] := 0;
      i := i + 1;
    }
  }

  /** One round of the decoding loop: read, decode and store, if there is room. */
  method DecodeRound(src: string, n: nat, p0: nat, target: array<Byte>, at: nat,
                     ghost all: seq<Byte>, ghost done: seq<Byte>)
    returns (p: nat, t: seq<Byte>)
    requires Padded(src, n) && p0 <= n && at == |done| && Holds(target[..], done)
    requires all == done + DecodeKept(Kept(src[p0..]))
    modifies target
    ensures p0 < p <= n + 4 && (|t| == 3 ==> p <= n) && at + |t| <= |all|
    ensures all == if |t| == 3 then done + t + DecodeKept(Kept(src[p..])) else done + t
    ensures at + |t| <= target.Length ==> Holds(target[..], done + t)
  {
    var q := new char[4];
    p := ReadQuad(src, n, p0, q);
    OneQuad(all, done, Kept(src[p0..]), q[..], Kept(src[p..]));
    t := DecodeTriple(q);
    if at + |t| <= target.Length {
      Store(target, t, at, done);
    }
  }

  /** The decoding loop: as long as four characters give three bytes. */
  method DecodeRounds(src: string, n: nat, target: array<Byte>, ghost all: seq<Byte>)
    returns (converted: int, used: nat)
    requires Padded(src, n) && all == DecodeKept(Kept(src)) && Holds(target[..], [])
    modifies target
    ensures used <= n + 4
    ensures converted == -1 <==> |all| > target.Length
    ensures converted != -1 ==> converted == |all| && Holds(target[..], all)
  {
    ghost var done := [];
    var p, at, more := 0, 0, true;
    assert src[0..] == src && [] + all == all;
    while more
      invariant p <= n + 4 && (more ==> p <= n) && at == |done|
      invariant Holds(target[..], done)
      invariant all == if more then done + DecodeKept(Kept(src[p..])) else done
      decreases more, n + 4 - p
    {
      var t;
      p, t := DecodeRound(src, n, p, target, at, all, done);
      if target.Length - at < |t| {
        return -1, p;
      }
      done := done + t;
      at := at + |t|;
      more := |t| == 3;
    }
    return at, p;
  }

  /** base64_decode: `used` is how far the padded source was read. */
  method Base64Decode(source: string, target: array<Byte>) returns (n: int, used: nat)
    modifies target
    ensures used <= |source| + 4
    ensures n == -1 <==> |Decode(source)| > target.Length
    ensures n != -1 ==> n == |Decode(source)| && Holds(target[..], Decode(source))
  {
    Wipe(target);
    n, used := DecodeRounds(source + PAD, |source|, target, Decode(source));
  }

  /** Through both buffers and back: encode into a target with room, decode the string into one
      with room for the bytes. */
  method EncodeThenDecode(source: seq<Byte>, text: array<char>, back: array<Byte>) returns (n: int)
    requires text.Length > |Encode(source)| && back.Length >= |source|
    modifies text, back
    ensures n == |source| && back[..n] == source
  {
    var ok := Base64Encode(source, text);
    var len := 0;
    EncodeSignificant(source);
    assert forall k :: 0 <= k < |Encode(source)| ==> text[..|Encode(source)|][k] == text[k];
    while text[len] != '\0'
      invariant 0 <= len <= |Encode(source)|
      decreases text.Length - len
    {
      len := len + 1;
    }
    assert len == |Encode(source)| by {
      assert len < |Encode(source)| ==> Significant(Encode(source)[len]);
    }
    RoundTrip(source);
    var used;
    n, used := Base64Decode(text[..len], back);
    assert back[..n] == source;
  }
}
