/** What macros, escapes and quotes of an entry expand to (lib/parse_subs.c:1061-1221).
 */
module ExpandForms {
  import opened Options
  import opened ExpandEntry

  /** The expansion of what follows in an entry. */
  function Rest(env: Env, s: string, squote: bool): string
    requires Usable(Pieces(env.normalize, s, false, squote))
  {
    RenderAll(env, Pieces(env.normalize, s, false, squote))
  }

  lemma FirstPiece(env: Env, s: string, first: bool, squote: bool)
    requires s != []
    requires var (piece, rest) := Next(env.normalize, s, first, squote);
      (piece.Macro? ==> !Lone(piece.body)) && Usable(Pieces(env.normalize, rest, false, Quote(s, squote)))
    ensures Usable(Pieces(env.normalize, s, first, squote))
    ensures var (piece, rest) := Next(env.normalize, s, first, squote);
      RenderAll(env, Pieces(env.normalize, s, first, squote)) == Render(env, piece) + Rest(env, rest, Quote(s, squote))
  {
    var (piece, rest) := Next(env.normalize, s, first, squote);
    var ps, tail := Pieces(env.normalize, s, first, squote), Pieces(env.normalize, rest, false, Quote(s, squote));
    assert ps == [piece] + tail && ps[1..] == tail;
    assert forall k :: 1 <= k < |ps| ==> ps[k] == tail[k - 1];
  }

  // ----- macros

  lemma {:induction false} IndexIs(a: string, c: char, b: string)
    requires c !in a
    ensures Index(a + [c] + b, c) == |a| && Index(a, c) == |a|
  {
    if a == [] {
      assert a + [c] + b == [c] + b;
    } else {
      assert (a + [c] + b)[1..] == a[1..] + [c] + b && (a + [c] + b)[0] == a[0];
      IndexIs(a[1..], c, b);
    }
  }

  lemma MacroFirst(env: Env, body: string, rest: string, first: bool, squote: bool)
    requires '}' !in body && !Lone(body) && Usable(Pieces(env.normalize, rest, false, squote))
    ensures var s := "${" + body + "}" + rest;
      && Usable(Pieces(env.normalize, s, first, squote))
      && RenderAll(env, Pieces(env.normalize, s, first, squote)) == MacroText(env, body) + Rest(env, rest, squote)
  {
    var s := "${" + body + "}" + rest;
    IndexIs(body, '}', rest);
    assert s[2..] == body + ['}'] + rest;
    assert s[2..][..|body|] == body && s[2..][|body| + 1..] == rest;
    FirstPiece(env, s, first, squote);
  }

  /** A macro name: without a closing brace, and without a mark at either end. */
  predicate Name(name: string) {
    && name != [] && '}' !in name
    && name[0] != '/' && name[0] != '.' && name[|name| - 1] != '/' && name[|name| - 1] != '.'
  }

  function Use(body: string): string { "${" + body + "}" }

  /** An entry that is one macro. */
  lemma OneMacro(env: Env, body: string)
    requires '}' !in body && !Lone(body)
    ensures Expandable(env, Use(body)) && Expand(env, Use(body)) == MacroText(env, body)
  {
    MacroFirst(env, body, "", true, false);
    assert "${" + body + "}" + "" == Use(body);
    assert MacroText(env, body) + "" == MacroText(env, body);
  }

  lemma MarkBefore(name: string, c: char)
    requires Name(name) && Mark(c)
    ensures var body := [c] + name;
      && !Lone(body) && '}' !in body && NameOf(body) == name
      && FormOf(body) == if c == '.' then LeadingDot else LeadingSlash
  {
    var body := [c] + name;
    assert body[|body| - 1] == name[|name| - 1] && body[1..] == name;
  }

  lemma MarkAfter(name: string, c: char)
    requires Name(name) && Mark(c)
    ensures var body := name + [c];
      && !Lone(body) && '}' !in body && NameOf(body) == name
      && FormOf(body) == if c == '.' then TrailingDot else TrailingSlash
  {
    var body := name + [c];
    assert body[0] == name[0] && body[..|name|] == name;
  }

  lemma NoMark(name: string)
    requires Name(name)
    ensures !Lone(name) && NameOf(name) == name && FormOf(name) == Plain
  {
  }

  /** The forms of a macro that has a value: the value, its basename, its dirname, and what comes
      before and after its first dot. */
  lemma MacroForms(env: Env, name: string, val: string)
    requires Name(name) && env.find(name) == Some(val)
    ensures Expandable(env, Use(name)) && Expand(env, Use(name)) == val
    ensures Expandable(env, Use("/" + name)) && Expand(env, Use("/" + name)) == env.basename(val)
    ensures Expandable(env, Use(name + "/")) && Expand(env, Use(name + "/")) == env.dirname(val)
    ensures Expandable(env, Use(name + ".")) && Expandable(env, Use("." + name))
    ensures var before, after := Expand(env, Use(name + ".")), Expand(env, Use("." + name));
            if '.' in val then before + "." + after == val && '.' !in before else before == val && after == val
  {
    NoMark(name);
    MarkBefore(name, '/');
    MarkAfter(name, '/');
    MarkBefore(name, '.');
    MarkAfter(name, '.');
    OneMacro(env, name);
    OneMacro(env, "/" + name);
    OneMacro(env, name + "/");
    OneMacro(env, "." + name);
    OneMacro(env, name + ".");
    DotForms(env, val);
  }

  /** A macro without a value stays as it is, in every form. */
  lemma UnknownMacro(env: Env, body: string)
    requires '}' !in body && !Lone(body) && env.find(NameOf(body)) == None
    ensures Expandable(env, Use(body)) && Expand(env, Use(body)) == Use(body)
  {
    OneMacro(env, body);
  }

  /** Without normalization a character that opens no macro is kept. */
  lemma KeepsFirst(env: Env, c: char, tail: string, first: bool, squote: bool)
    requires !env.normalize && c != '$' && Usable(Pieces(false, tail, false, Quote([c], squote)))
    ensures Usable(Pieces(false, [c] + tail, first, squote))
    ensures RenderAll(env, Pieces(false, [c] + tail, first, squote))
         == [c] + RenderAll(env, Pieces(false, tail, false, Quote([c], squote)))
  {
    assert ([c] + tail)[1..] == tail;
    FirstPiece(env, [c] + tail, first, squote);
  }

  /** Without normalization an entry is expanded where its macros stand: text before a macro is
      kept, and what follows is expanded in turn. */
  lemma {:induction false} MacroInPlace(env: Env, a: string, body: string, rest: string, first: bool, squote: bool)
    requires !env.normalize && '$' !in a && '}' !in body && !Lone(body)
    requires Usable(Pieces(false, rest, false, false))
    ensures var s := a + (Use(body) + rest);
      && Usable(Pieces(false, s, first, squote))
      && RenderAll(env, Pieces(false, s, first, squote)) == a + (MacroText(env, body) + Rest(env, rest, false))
    decreases |a|
  {
    var macro, out := Use(body) + rest, MacroText(env, body) + Rest(env, rest, false);
    if a == [] {
      PlainPieces(env, rest, false, squote);
      MacroFirst(env, body, rest, first, squote);
      assert a + macro == macro && a + out == out;
    } else {
      MacroInPlace(env, a[1..], body, rest, false, Quote([a[0]], squote));
      KeepsFirst(env, a[0], a[1..] + macro, first, squote);
      ConsText(a, macro);
      ConsText(a, out);
    }
  }

  lemma ConsText(a: string, s: string)
    requires a != []
    ensures a + s == [a[0]] + (a[1..] + s)
  {
  }

  /** Without normalization quotes make no difference. */
  lemma {:induction false} PlainPieces(env: Env, s: string, first: bool, squote: bool)
    ensures Pieces(false, s, first, squote) == Pieces(false, s, false, false)
    decreases |s|
  {
    if s == [] {
    } else {
      var rest := Next(false, s, false, false).1;
      PlainPieces(env, rest, false, Quote(s, squote));
      PlainPieces(env, rest, false, Quote(s, false));
    }
  }

  /** An entry ends at a macro that is not closed. */
  lemma {:induction false} UnclosedMacro(env: Env, a: string, rest: string, first: bool, squote: bool)
    requires !env.normalize && '$' !in a && '}' !in rest
    ensures var s := a + "${" + rest;
      Usable(Pieces(false, s, first, squote)) && RenderAll(env, Pieces(false, s, first, squote)) == a
    decreases |a|
  {
    var s := a + "${" + rest;
    if a == [] {
      IndexIs(rest, '}', "");
      assert s == "${" + rest && s[2..] == rest;
      FirstPiece(env, s, first, squote);
    } else {
      assert s[1..] == a[1..] + "${" + rest && s[0] == a[0];
      UnclosedMacro(env, a[1..], rest, false, Quote(s, squote));
      FirstPiece(env, s, first, squote);
    }
  }

  // ----- escapes and quotes

  /** A backslash takes the character after it as it is; at the end of an entry it is dropped. */
  lemma Escape(env: Env, c: char, s: string)
    requires env.normalize && Simple(s)
    ensures Expandable(env, ['\\', c] + s) && Expand(env, ['\\', c] + s) == [c] + Normal(s)
    ensures Expandable(env, ['\\']) && Expand(env, ['\\']) == ""
  {
    var t := ['\\', c] + s;
    assert t[2..] == s;
    SimpleExpands(env, s);
    FirstPiece(env, t, true, false);
    FirstPiece(env, ['\\'], true, false);
  }

  /** Between single quotes slashes and backslashes stay. */
  lemma {:induction false} Quoted(env: Env, q: string, s: string)
    requires env.normalize && Simple(s) && '\'' !in q && '$' !in q
    ensures var t := q + "'" + s;
      Usable(Pieces(true, t, false, true)) && RenderAll(env, Pieces(true, t, false, true)) == q + "'" + Normal(s)
    decreases |q|
  {
    var t := q + "'" + s;
    if q == [] {
      assert t[1..] == s;
      SimpleExpands(env, s);
      FirstPiece(env, t, false, true);
    } else {
      assert t[1..] == q[1..] + "'" + s && t[0] == q[0];
      Quoted(env, q[1..], s);
      FirstPiece(env, t, false, true);
      assert [q[0]] + (q[1..] + "'" + Normal(s)) == q + "'" + Normal(s);
    }
  }

  /** An entry that begins with a quoted part. */
  lemma QuotedEntry(env: Env, q: string, s: string)
    requires env.normalize && Simple(s) && '\'' !in q && '$' !in q
    ensures var t := "'" + q + "'" + s; Expandable(env, t) && Expand(env, t) == "'" + q + "'" + Normal(s)
  {
    var t := "'" + q + "'" + s;
    assert t[1..] == q + "'" + s;
    Quoted(env, q, s);
    FirstPiece(env, t, true, false);
    assert "'" + (q + "'" + Normal(s)) == "'" + q + "'" + Normal(s);
  }
}
