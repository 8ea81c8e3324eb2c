/** $-expansion of amd map entries (lib/parse_subs.c:1061-1253): the pass that counts and the
    pass that writes, and the text that both work out.

    The table of macros and the C library's basename and dirname are parameters.
 */
module ExpandEntry {
  import opened Options

  datatype Env = Env(
    normalize: bool,
    find: string -> Option<string>,
    basename: string -> string,
    dirname: string -> string)

  // ----- the value of a macro

  /** Where `c` first occurs in `s`, or its length. */
  function Index(s: string, c: char): (n: nat)
    ensures n <= |s| && (n < |s| ==> s[n] == c)
    ensures forall k :: 0 <= k < n ==> s[k] != c
  {
    if s == [] || s[0] == c then 0
    else
      var n := Index(s[1..], c);
      assert forall k :: 1 <= k < n + 1 ==> s[k] == s[1..][k - 1];
      n + 1
  }

  datatype Form = Plain | LeadingSlash | TrailingSlash | LeadingDot | TrailingDot

  predicate Mark(c: char) { c == '/' || c == '.' }

  predicate MarkedBefore(body: string) { body != [] && Mark(body[0]) }
  predicate MarkedAfter(body: string) { body != [] && Mark(body[|body| - 1]) }

  /** A mark after the name counts, and a mark before it only without one after. */
  function FormOf(body: string): Form {
    if MarkedAfter(body) then (if body[|body| - 1] == '.' then TrailingDot else TrailingSlash)
    else if MarkedBefore(body) then (if body[0] == '.' then LeadingDot else LeadingSlash)
    else Plain
  }

  /** A single mark would be taken off at both ends. */
  predicate Lone(body: string) { |body| == 1 && Mark(body[0]) }

  function NameOf(body: string): string
    requires !Lone(body)
  {
    body[if MarkedBefore(body) then 1 else 0..if MarkedAfter(body) then |body| - 1 else |body|]
  }

  /** expand_slash_or_dot, with the value itself where there is nothing after a dot */
  function Shape(env: Env, val: string, form: Form): string {
    var dot := Index(val, '.');
    match form
    case Plain => val
    case LeadingSlash => env.basename(val)
    case TrailingSlash => env.dirname(val)
    case LeadingDot => if dot < |val| then val[dot + 1..] else val
    case TrailingDot => val[..dot]
  }

  /** The two dotted forms cut a value at its first dot; without one both leave it whole. */
  lemma DotForms(env: Env, val: string)
    ensures var before, after := Shape(env, val, TrailingDot), Shape(env, val, LeadingDot);
      if '.' in val then before + "." + after == val && '.' !in before else before == val && after == val
  {
    var dot := Index(val, '.');
    if dot < |val| {
      assert val == val[..dot] + [val[dot]] + val[dot + 1..];
    }
  }

  /** The text for `${body}`: an unknown macro stays as it is. */
  function MacroText(env: Env, body: string): string
    requires !Lone(body)
  {
    match env.find(NameOf(body))
    case Some(val) => Shape(env, val, FormOf(body))
    case None => "${" + body + "}"
  }

  // ----- the pieces of an entry

  datatype Piece = Text(text: string) | Macro(body: string) | Cut

  function SkipSlashes(s: string): (r: string)
    ensures |r| <= |s| && (r != [] ==> r[0] != '/')
  {
    if s != [] && s[0] == '/' then SkipSlashes(s[1..]) else s
  }

  predicate OpensMacro(s: string) {
    |s| >= 2 && s[0] == '$' && s[1] == '{'
  }

  /** The next piece of a non-empty rest of the entry, and what follows it.  `first`: the rest
      is the whole entry; `squote`: within single quotes. */
  function Next(normalize: bool, s: string, first: bool, squote: bool): (r: (Piece, string))
    requires s != []
    ensures |r.1| < |s|
  {
    if OpensMacro(s) then
      var rest := s[2..];
      var n := Index(rest, '}');
      if n == |rest| then (Cut, []) else (Macro(rest[..n]), rest[n + 1..])
    else if s[0] == '\\' && !squote && normalize then
      if |s| >= 2 then (Text([s[1]]), s[2..]) else (Text([]), [])
    else if s[0] == '/' && !squote && normalize then
      (Text(if first && |s| >= 2 && s[1] == '/' then "//" else "/"), SkipSlashes(s[1..]))
    else (Text([s[0]]), s[1..])
  }

  function Quote(s: string, squote: bool): bool
    requires s != []
  {
    if s[0] == '\'' then !squote else squote
  }

  function Pieces(normalize: bool, s: string, first: bool, squote: bool): seq<Piece>
    decreases |s|
  {
    if s == [] then []
    else
      var (piece, rest) := Next(normalize, s, first, squote);
      [piece] + Pieces(normalize, rest, false, Quote(s, squote))
  }

  predicate Usable(ps: seq<Piece>) {
    forall k :: 0 <= k < |ps| ==> ps[k].Macro? ==> !Lone(ps[k].body)
  }

  function Render(env: Env, p: Piece): string
    requires p.Macro? ==> !Lone(p.body)
  {
    match p
    case Text(t) => t
    case Macro(body) => MacroText(env, body)
    case Cut => []
  }

  function RenderAll(env: Env, ps: seq<Piece>): string
    requires Usable(ps)
  {
    if ps == [] then [] else Render(env, ps[0]) + RenderAll(env, ps[1..])
  }

  /** No macro of the entry is a lone slash or dot. */
  predicate Expandable(env: Env, s: string) {
    Usable(Pieces(env.normalize, s, true, false))
  }

  /** The expansion of an entry. */
  function Expand(env: Env, s: string): string
    requires Expandable(env, s)
  {
    RenderAll(env, Pieces(env.normalize, s, true, false))
  }

  // ----- what expansion leaves alone

  ghost predicate NothingDefined(env: Env) {
    !env.normalize && forall name :: env.find(name) == None
  }

  lemma NextUnchanged(env: Env, s: string, first: bool, squote: bool)
    requires NothingDefined(env) && s != []
    ensures var (piece, rest) := Next(false, s, first, squote);
      if piece.Cut? then rest == [] else (piece.Macro? ==> !Lone(piece.body)) ==> s == Render(env, piece) + rest
  {
  }

  lemma PiecesSplit(env: Env, s: string, first: bool, squote: bool)
    requires s != [] && Usable(Pieces(env.normalize, s, first, squote))
    ensures var (piece, rest) := Next(env.normalize, s, first, squote);
      var ps, tail := Pieces(env.normalize, s, first, squote), Pieces(env.normalize, rest, false, Quote(s, squote));
      && ps == [piece] + tail && Usable(tail) && (piece.Macro? ==> !Lone(piece.body))
      && RenderAll(env, ps) == Render(env, piece) + RenderAll(env, tail)
  {
    var (piece, rest) := Next(env.normalize, s, first, squote);
    var ps, tail := Pieces(env.normalize, s, first, squote), Pieces(env.normalize, rest, false, Quote(s, squote));
    assert ps[0] == piece && ps[1..] == tail;
    assert forall k :: 0 <= k < |tail| ==> tail[k] == ps[k + 1];
  }

  /** With no macro defined and no slashes to normalize, the entry comes out as it went in, up
      to a macro that is not closed. */
  lemma {:induction false} NothingToExpand(env: Env, s: string, first: bool, squote: bool)
    requires NothingDefined(env) && Usable(Pieces(false, s, first, squote))
    ensures RenderAll(env, Pieces(false, s, first, squote)) <= s
    ensures RenderAll(env, Pieces(false, s, first, squote)) == s <==> Cut !in Pieces(false, s, first, squote)
    decreases |s|
  {
    if s == [] {
    } else {
      var (piece, rest) := Next(false, s, first, squote);
      PiecesSplit(env, s, first, squote);
      NextUnchanged(env, s, first, squote);
      NothingToExpand(env, rest, false, Quote(s, squote));
    }
  }

  /** No quote, no escape, no macro. */
  predicate Simple(s: string) {
    forall k :: 0 <= k < |s| ==> s[k] != '$' && s[k] != '\\' && s[k] != '\''
  }

  /** No two slashes in a row. */
  predicate SingleSlashes(s: string) {
    forall k :: 0 <= k < |s| - 1 ==> !(s[k] == '/' && s[k + 1] == '/')
  }

  function Normal(s: string): string
    decreases |s|
  {
    if s == [] then []
    else if s[0] == '/' then "/" + Normal(SkipSlashes(s[1..]))
    else [s[0]] + Normal(s[1..])
  }

  lemma {:induction false} SkipIs(s: string)
    ensures Simple(s) ==> Simple(SkipSlashes(s))
    ensures SingleSlashes(s) && (s == [] || s[0] != '/') ==> SkipSlashes(s) == s
  {
    if s == [] || s[0] != '/' {
    } else {
      SkipIs(s[1..]);
    }
  }

  lemma {:induction false} NormalIs(s: string)
    ensures SingleSlashes(Normal(s))
    ensures s != [] ==> Normal(s) != [] && Normal(s)[0] == s[0]
    ensures SingleSlashes(s) ==> Normal(s) == s
    ensures Simple(s) ==> Simple(Normal(s))
    decreases |s|
  {
    if s == [] {
    } else {
      var rest := if s[0] == '/' then SkipSlashes(s[1..]) else s[1..];
      NormalIs(rest);
      SkipIs(s[1..]);
      assert Normal(s) == [s[0]] + Normal(rest);
      assert Simple(s) ==> Simple(s[1..]);
      assert SingleSlashes(s) ==> rest == s[1..];
    }
  }

  /** Putting a piece of text in front of pieces that can be rendered. */
  lemma PiecesJoin(env: Env, s: string, first: bool, squote: bool)
    requires s != [] && Next(env.normalize, s, first, squote).0.Text?
    requires Usable(Pieces(env.normalize, Next(env.normalize, s, first, squote).1, false, Quote(s, squote)))
    ensures var (piece, rest) := Next(env.normalize, s, first, squote);
      var ps, tail := Pieces(env.normalize, s, first, squote), Pieces(env.normalize, rest, false, Quote(s, squote));
      Usable(ps) && RenderAll(env, ps) == piece.text + RenderAll(env, tail)
  {
    var (piece, rest) := Next(env.normalize, s, first, squote);
    var ps, tail := Pieces(env.normalize, s, first, squote), Pieces(env.normalize, rest, false, Quote(s, squote));
    assert ps == [piece] + tail && ps[1..] == tail;
    assert forall k :: 1 <= k < |ps| ==> ps[k] == tail[k - 1];
  }

  /** Past the start of a simple entry, expansion is the removal of repeated slashes. */
  lemma {:induction false} SimpleExpands(env: Env, s: string)
    requires env.normalize && Simple(s)
    ensures Usable(Pieces(true, s, false, false)) && RenderAll(env, Pieces(true, s, false, false)) == Normal(s)
    decreases |s|
  {
    if s == [] {
    } else {
      SkipIs(s[1..]);
      SimpleExpands(env, Next(true, s, false, false).1);
      PiecesJoin(env, s, false, false);
    }
  }

  predicate DoubleStart(s: string) { |s| >= 2 && s[0] == '/' && s[1] == '/' }

  function NormalEntry(s: string): string {
    if DoubleStart(s) then "/" + Normal(s) else Normal(s)
  }

  /** A simple entry keeps a double slash at its start, and every other run of slashes becomes
      one slash. */
  lemma SimpleEntry(env: Env, s: string)
    requires env.normalize && Simple(s)
    ensures Expandable(env, s) && Expand(env, s) == NormalEntry(s)
  {
    if s != [] {
      SkipIs(s[1..]);
      SimpleExpands(env, Next(true, s, true, false).1);
      PiecesJoin(env, s, true, false);
      if DoubleStart(s) {
        var rest := Normal(SkipSlashes(s[1..]));
        assert "//" + rest == "/" + ("/" + rest);
      }
    }
  }

  /** Expanding a simple entry again changes nothing more. */
  lemma ExpandTwice(env: Env, s: string)
    requires env.normalize && Simple(s)
    ensures Expandable(env, s) && Expandable(env, Expand(env, s))
    ensures Expand(env, Expand(env, s)) == Expand(env, s)
  {
    SimpleEntry(env, s);
    NormalIs(s);
    var r := NormalEntry(s);
    SimpleEntry(env, r);
    NormalIs(r);
    if DoubleStart(s) {
      assert r[1..] == Normal(s);
      NormalIs(r[1..]);
      assert r[1] == '/';
      assert SkipSlashes(r[1..]) == SkipSlashes(Normal(s)[1..]);
      SkipIs(Normal(s)[1..]);
      NormalIs(Normal(s)[1..]);
      assert Normal(r) == "/" + Normal(SkipSlashes(r[1..]));
      assert Normal(s) == "/" + Normal(s)[1..];
    }
  }
}
