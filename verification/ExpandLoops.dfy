/** expandamdent as the source runs it: one loop over the entry that only counts when it has no
    destination, and also writes when it has one (lib/parse_subs.c:1061-1253).
 */
module ExpandLoops {
  import opened Options
  import opened ExpandEntry

  function Nuls(n: nat): string {
    seq(n, _ => '\0')
  }

  /** The buffer holds `out` and is zero from there on. */
  ghost predicate Holds(buffer: string, out: string) {
    |out| <= |buffer| && buffer == out + Nuls(|buffer| - |out|)
  }

  /** There is no destination, or it holds `out` with room for `more` characters and a NUL. */
  ghost predicate Ready(dst: array?<char>, out: string, more: nat)
    reads dst
  {
    dst != null ==> Holds(dst[..], out) && |out| + more < dst.Length
  }

  lemma HoldsOneMore(buffer: string, out: string, c: char)
    requires Holds(buffer, out) && |out| < |buffer|
    ensures Holds(buffer[|out| := c], out + [c])
  {
  }

  /** Write one character, if there is somewhere to write it. */
  method PutChar(dst: array?<char>, d: nat, c: char, ghost out: string, ghost more: nat)
    requires d == |out| && Ready(dst, out, more + 1)
    modifies dst
    ensures Ready(dst, out + [c], more)
  {
    if dst != null {
      HoldsOneMore(dst[..], out, c);
      ghost var next := dst[..][d := c];
      dst[d] := c;
      assert dst[..] == next;
    }
  }

  /** Where the string that starts at `d` ends. */
  method EndOf(dst: array<char>, d: nat) returns (e: nat)
    requires d < dst.Length && dst[dst.Length - 1] == '\0'
    ensures d <= e < dst.Length && dst[e] == '\0' && forall k :: d <= k < e ==> dst[k] != '\0'
  {
    e := d;
    while dst[e] != '\0'
      invariant d <= e < dst.Length && forall k :: d <= k < e ==> dst[k] != '\0'
      decreases dst.Length - e
    {
      e := e + 1;
    }
  }

  /** strcat, strcpy and strncat of `val` to the string at `d`, NUL included */
  method StrCat(dst: array?<char>, d: nat, val: string, ghost out: string, ghost more: nat)
    requires d == |out| && Ready(dst, out, more + |val|)
    modifies dst
    ensures Ready(dst, out + val, more)
  {
    if dst == null {
      return;
    }
    var e := EndOf(dst, d);
    assert dst[..][d] == '\0';
    var k := 0;
    assert out + val[..0] == out;
    while k < |val|
      invariant 0 <= k <= |val| && Ready(dst, out + val[..k], more + |val| - k)
    {
      PutChar(dst, e + k, val[k], out + val[..k], more + |val| - k - 1);
      assert out + val[..k] + [val[k]] == out + val[..k + 1];
      k := k + 1;
    }
    assert val[..k] == val;
    ghost var full := dst[..];
    dst[e + |val|] := '\0';
    assert dst[..] == full;
  }

  /** The `${...}` case: the value of the macro, or the text itself */
  method ExpandMacro(env: Env, body: string, dst: array?<char>, d: nat, ghost out: string, ghost more: nat)
    returns (l: nat)
    requires !Lone(body) && d == |out| && Ready(dst, out, more + |MacroText(env, body)|)
    modifies dst
    ensures l == |MacroText(env, body)| && Ready(dst, out + MacroText(env, body), more)
  {
    var start, end, form := 0, |body|, Plain;
    if body != [] && (body[0] == '/' || body[0] == '.') {
      start := start + 1;
      form := if body[0] == '.' then LeadingDot else LeadingSlash;
    }
    if body != [] && (body[end - 1] == '/' || body[end - 1] == '.') {
      form := if body[end - 1] == '.' then TrailingDot else TrailingSlash;
      end := end - 1;
    }
    assert body[start..end] == NameOf(body) && form == FormOf(body);
    match env.find(body[start..end]) {
      case Some(sv) =>
        var val := Shape(env, sv, form);
        l := |val|;
        StrCat(dst, d, val, out, more);
      case None =>
        l := 1 + 1 + |body| + 1;
        PutChar(dst, d, '$', out, more + |body| + 2);
        PutChar(dst, d + 1, '{', out + ['$'], more + |body| + 1);
        StrCat(dst, d + 2, body, out + ['$'] + ['{'], more + 1);
        PutChar(dst, d + 2 + |body|, '}', out + ['$'] + ['{'] + body, more);
        assert out + ['$'] + ['{'] + body + ['}'] == out + MacroText(env, body);
    }
  }

  /** strchr */
  method StrChr(s: string, c: char, from: nat) returns (p: nat)
    requires from <= |s|
    ensures from <= p <= |s| && p - from == Index(s[from..], c)
  {
    p := from;
    while p < |s| && s[p] != c
      invariant from <= p <= |s| && forall k :: from <= k < p ==> s[k] != c
    {
      p := p + 1;
    }
    var n := Index(s[from..], c);
    assert p < |s| ==> s[from..][p - from] == c;
    assert n < |s[from..]| ==> s[from + n] == c;
  }

  /** The loop that drops slashes. */
  method SkipFrom(s: string, from: nat) returns (p: nat)
    requires from <= |s|
    ensures from <= p <= |s| && s[p..] == SkipSlashes(s[from..])
  {
    p := from;
    while p < |s| && s[p] == '/'
      invariant from <= p <= |s| && SkipSlashes(s[p..]) == SkipSlashes(s[from..])
    {
      assert s[p..][1..] == s[p + 1..];
      p := p + 1;
    }
  }

  /** The rest of an entry, from position `i`. */
  ghost function Rest(env: Env, src: string, i: nat, squote: bool): seq<Piece>
    requires i <= |src|
  {
    Pieces(env.normalize, src[i..], i == 0, squote)
  }

  /** One round of the loop, for a character that opens no macro. */
  method ExpandChar(env: Env, src: string, i0: nat, squote: bool, dst: array?<char>, d: nat,
                    ghost out: string, ghost more: nat)
    returns (i: nat, l: nat)
    requires i0 < |src| && !OpensMacro(src[i0..]) && d == |out|
    requires Ready(dst, out, more + |Next(env.normalize, src[i0..], i0 == 0, squote).0.text|)
    modifies dst
    ensures var (piece, rest) := Next(env.normalize, src[i0..], i0 == 0, squote);
      && i0 < i <= |src| && src[i..] == rest
      && l == |piece.text| && Ready(dst, out + piece.text, more)
  {
    var ch := src[i0];
    i := i0 + 1;
    if ch == '\\' && !squote && env.normalize {
      l := 0;
      if i < |src| {
        PutChar(dst, d, src[i], out, more);
        i, l := i + 1, 1;
      } else {
        assert out + [] == out;
      }
    } else if ch == '/' && !squote && env.normalize {
      if i0 == 0 && i < |src| && src[i] == '/' {
        PutChar(dst, d, ch, out, more + 1);
        PutChar(dst, d + 1, '/', out + [ch], more);
        assert out + [ch] + ['/'] == out + "//";
        l := 2;
      } else {
        PutChar(dst, d, ch, out, more);
        l := 1;
      }
      assert src[i0..][1..] == src[i..];
      i := SkipFrom(src, i);
    } else {
      PutChar(dst, d, ch, out, more);
      l := 1;
    }
  }

  lemma RestStep(env: Env, src: string, i: nat, squote: bool)
    requires i < |src| && Usable(Rest(env, src, i, squote))
    ensures var (piece, rest) := Next(env.normalize, src[i..], i == 0, squote);
      var tail := Pieces(env.normalize, rest, false, Quote(src[i..], squote));
      && Usable(tail) && (piece.Macro? ==> !Lone(piece.body))
      && RenderAll(env, Rest(env, src, i, squote)) == Render(env, piece) + RenderAll(env, tail)
  {
    PiecesSplit(env, src[i..], i == 0, squote);
  }

  lemma MacroNext(normalize: bool, src: string, i: nat, squote: bool, p: nat)
    requires i + 2 <= p <= |src| && OpensMacro(src[i..]) && p - (i + 2) == Index(src[i + 2..], '}')
    ensures Next(normalize, src[i..], i == 0, squote)
         == if p == |src| then (Cut, []) else (Macro(src[i + 2..p]), src[p + 1..])
  {
    assert src[i..][2..] == src[i + 2..];
    assert src[i + 2..][..p - (i + 2)] == src[i + 2..p];
    if p < |src| { assert src[i + 2..][p - (i + 2) + 1..] == src[p + 1..]; }
  }

  /** `out` and the rest of the entry make up the whole expansion. */
  ghost predicate Todo(env: Env, src: string, i: nat, squote: bool, out: string, all: string) {
    && i <= |src| && Usable(Rest(env, src, i, squote))
    && all == out + RenderAll(env, Rest(env, src, i, squote))
  }

  /** The text of the next piece and of those after it, and their being part of the whole. */
  lemma TodoStep(env: Env, src: string, i: nat, squote: bool, out: string, all: string)
    returns (piece: Piece, rest: string, tail: string)
    requires Todo(env, src, i, squote, out, all) && i < |src|
    ensures (piece, rest) == Next(env.normalize, src[i..], i == 0, squote)
    ensures piece.Macro? ==> !Lone(piece.body)
    ensures Usable(Pieces(env.normalize, rest, false, Quote(src[i..], squote)))
    ensures tail == RenderAll(env, Pieces(env.normalize, rest, false, Quote(src[i..], squote)))
    ensures all == out + Render(env, piece) + tail
  {
    RestStep(env, src, i, squote);
    var next := Next(env.normalize, src[i..], i == 0, squote);
    piece, rest := next.0, next.1;
    tail := RenderAll(env, Pieces(env.normalize, rest, false, Quote(src[i..], squote)));
    Joined(out, Render(env, piece), tail);
  }

  lemma Resume(env: Env, src: string, i: nat, squote: bool, out: string, tail: string, all: string)
    requires 0 < i <= |src| && all == out + tail
    requires Usable(Pieces(env.normalize, src[i..], false, squote))
    requires tail == RenderAll(env, Pieces(env.normalize, src[i..], false, squote))
    ensures Todo(env, src, i, squote, out, all) && |out| <= |all|
  {
  }

  lemma TextNext(env: Env, src: string, i: nat, squote: bool)
    requires i < |src| && !OpensMacro(src[i..])
    ensures var piece := Next(env.normalize, src[i..], i == 0, squote).0;
      piece.Text? && Render(env, piece) == piece.text
  {
  }

  /** One round of the loop; it stops at a macro that is not closed. */
  method ExpandRound(env: Env, src: string, i0: nat, squote0: bool, dst: array?<char>, d: nat,
                     ghost out0: string, ghost all: string)
    returns (i: nat, squote: bool, l: nat, stop: bool, ghost out: string)
    requires Todo(env, src, i0, squote0, out0, all) && i0 < |src| && d == |out0| && Ready(dst, out0, |all| - |out0|)
    modifies dst
    ensures i0 < i <= |src| && |out| == d + l && |out| <= |all| && Ready(dst, out, |all| - |out|)
    ensures stop ==> all == out && l == 0
    ensures !stop ==> Todo(env, src, i, squote, out, all)
  {
    ghost var piece, rest, tail := TodoStep(env, src, i0, squote0, out0, all);
    assert src[i0..][0] == src[i0];
    squote := if src[i0] == '\'' then !squote0 else squote0;
    if src[i0] == '$' && i0 + 1 < |src| && src[i0 + 1] == '{' {
      var p := StrChr(src, '}', i0 + 2);
      MacroNext(env.normalize, src, i0, squote0, p);
      if p == |src| {
        return |src|, squote, 0, true, out0;
      }
      l := ExpandMacro(env, src[i0 + 2..p], dst, d, out0, |tail|);
      i := p + 1;
    } else {
      TextNext(env, src, i0, squote0);
      i, l := ExpandChar(env, src, i0, squote0, dst, d, out0, |tail|);
    }
    stop, out := false, out0 + Render(env, piece);
    assert src[i..] == rest;
    Resume(env, src, i, squote, out, tail, all);
  }

  /** expandamdent: without a destination it counts, into a zeroed one it also writes. */
  method ExpandAmdEnt(env: Env, src: string, dst: array?<char>) returns (len: nat)
    requires Expandable(env, src) && Ready(dst, [], |Expand(env, src)|)
    modifies dst
    ensures len == |Expand(env, src)|
    ensures dst != null ==> dst[..len] == Expand(env, src) && dst[len] == '\0'
  {
    len := 0;
    var i, d, squote, stop := 0, 0, false, false;
    ghost var all, out := Expand(env, src), [];
    assert src[0..] == src;
    while i < |src| && !stop
      invariant 0 <= i <= |src| && len == d == |out| <= |all| && Ready(dst, out, |all| - |out|)
      invariant if stop then all == out else Todo(env, src, i, squote, out, all)
      decreases |src| - i, !stop
    {
      var l;
      i, squote, l, stop, out := ExpandRound(env, src, i, squote, dst, d, out, all);
      len := len + l;
      d := d + l;
    }
    assert all == out;
    if dst != null { Ended(dst, d, out); }
  }

  lemma Joined(out: string, text: string, tail: string)
    ensures out + (text + tail) == out + text + tail
  {
  }

  /** The final NUL is already there. */
  method Ended(dst: array<char>, d: nat, ghost out: string)
    requires d == |out| && Ready(dst, out, 0)
    modifies dst
    ensures dst[..d] == out && dst[d] == '\0'
  {
    dst[d] := '\0';
  }

  /** expand_selectors: count, allocate one more, write */
  method ExpandSelectors(env: Env, src: string) returns (r: Option<string>)
    requires Expandable(env, src)
    ensures r == if Expand(env, src) == [] then None else Some(Expand(env, src))
  {
    var len := ExpandAmdEnt(env, src, null);
    if len == 0 {
      return None;
    }
    var expand := new char[len + 1](_ => '\0');
    assert Holds(expand[..], []);
    var len2 := ExpandAmdEnt(env, src, expand);
    return Some(expand[..len2]);
  }
}
