/** What parse accepts, stated against the grammar of specs:

      spec := op      op := name "(" [ arg { "," arg } ] ")"      arg := literal | op

    where a name is a (possibly empty) token and a literal a non-empty one.
    Every tree parse returns is such an op, and rendering a tree back to text
    and parsing it again gives the same tree. */
module SpecGrammar {
  import opened Wrappers
  import opened SpecNodes
  import opened SpecParser

  /** A node the grammar can produce: op names are tokens, literals are
      non-empty tokens. */
  predicate WellFormed(n: Node)
    decreases n
  {
    match n
    case Literal(v) => v != [] && IsToken(v)
    case Op(v, cs) => IsToken(v) && forall i :: 0 <= i < |cs| ==> WellFormed(cs[i])
  }

  /** A node written back as spec text: literals verbatim, ops as
      name(arg,...,arg). */
  function Render(n: Node): string
    decreases n
  {
    match n
    case Literal(v) => v
    case Op(v, cs) => v + "(" + RenderArgs(cs) + ")"
  }

  function RenderArgs(cs: seq<Node>): string
    decreases cs
  {
    if cs == [] then ""
    else if |cs| == 1 then Render(cs[0])
    else Render(cs[0]) + "," + RenderArgs(cs[1..])
  }

  // Parse results are well formed, and addChild never meets a literal

  /** What parse keeps true between characters: every open node is a
      well-formed op, the buffer is a token and a closed root is a
      well-formed op. */
  predicate ValidState(st: ParserState) {
    && (forall i :: 0 <= i < |st.path| ==> st.path[i].Op? && WellFormed(st.path[i]))
    && IsToken(st.value)
    && (st.root.Some? ==> st.root.value.Op? && WellFormed(st.root.value))
  }

  lemma AttachKeepsValid(path: seq<Node>, child: Node)
    requires path != []
    requires forall i :: 0 <= i < |path| ==> path[i].Op? && WellFormed(path[i])
    requires WellFormed(child)
    ensures AttachToTop(path, child).Success?
    ensures var p := AttachToTop(path, child).value;
      forall i :: 0 <= i < |p| ==> p[i].Op? && WellFormed(p[i])
  {
    var top := path[|path| - 1];
    var p := AttachToTop(path, child).value;
    assert p[|p| - 1] == Op(top.value, top.children + [child]);
  }

  lemma PopKeepsValid(st: ParserState)
    requires ValidState(st) && st.path != []
    ensures Pop(st).Success? && ValidState(Pop(st).value)
  {
    if |st.path| > 1 {
      AttachKeepsValid(st.path[..|st.path| - 1], st.path[|st.path| - 1]);
    }
  }

  lemma StepKeepsValid(st: ParserState, ch: char)
    requires ValidState(st)
    ensures Step(st, ch).Success? ==> ValidState(Step(st, ch).value)
    ensures Step(st, ch).Failure? ==> !Step(st, ch).error.IllegalState?
  {
    if !IsWhitespace(ch) && (ch == ')' || ch == ',') && st.value != "" && st.path != [] {
      AttachKeepsValid(st.path, Literal(st.value));
      var path := AttachToTop(st.path, Literal(st.value)).value;
      if ch == ')' {
        PopKeepsValid(st.(path := path, value := "", wasComma := false));
      }
    } else if !IsWhitespace(ch) && ch == ')' && st.path != [] {
      PopKeepsValid(st);
    } else if !IsWhitespace(ch) && ch == '(' {
      var next := Step(st, ch).value;
      assert next.path[|next.path| - 1] == Op(st.value, []);
    }
  }

  lemma {:induction false} RunKeepsValid(st: ParserState, s: string)
    requires ValidState(st)
    ensures Run(st, s).Success? ==> ValidState(Run(st, s).value)
    ensures Run(st, s).Failure? ==> !Run(st, s).error.IllegalState?
    decreases |s|
  {
    if s != [] {
      StepKeepsValid(st, s[0]);
      if Step(st, s[0]).Success? {
        RunKeepsValid(Step(st, s[0]).value, s[1..]);
      }
    }
  }

  /** The root parse returns is an op, names and literals are tokens and no
      literal is empty; and the IllegalStateException of Literal.addChild
      never escapes parse, since only ops are ever on the path. */
  lemma ParseResultIsWellFormed(s: string)
    ensures ParseSpec(s).Success? ==> ParseSpec(s).value.Op? && WellFormed(ParseSpec(s).value)
    ensures ParseSpec(s).Failure? ==> !ParseSpec(s).error.IllegalState?
  {
    RunKeepsValid(Start, s);
  }

  // Rendering and parsing again

  lemma TokenCharIsPlain(c: char)
    requires IsTokenChar(c)
    ensures !IsWhitespace(c) && c != '(' && c != ')' && c != ','
  {
  }

  /** Token characters only grow the buffer. */
  lemma {:induction false} RunToken(st: ParserState, v: string, rest: string)
    requires IsToken(v)
    ensures Run(st, v + rest) == Run(st.(value := st.value + v), rest)
    decreases |v|
  {
    if v == [] {
      assert v + rest == rest;
      assert st.value + v == st.value;
    } else {
      assert (v + rest)[0] == v[0];
      assert (v + rest)[1..] == v[1..] + rest;
      TokenCharIsPlain(v[0]);
      RunToken(st.(value := st.value + [v[0]]), v[1..], rest);
      assert st.value + [v[0]] + v[1..] == st.value + v;
    }
  }

  /** The text of an op, read with an empty buffer, opens it, reads its
      arguments and closes it. */
  lemma {:induction false} RunRenderOp(st: ParserState, n: Node, rest: string)
    requires n.Op? && WellFormed(n)
    requires st.value == ""
    requires forall i :: 0 <= i < |st.path| ==> st.path[i].Op?
    ensures Run(st, Render(n) + rest) == Then(Pop(ParserState(st.root, st.path + [n], "", false)), rest)
    decreases n, 1
  {
    var name, cs := n.value, n.children;
    var tail := RenderArgs(cs) + ")" + rest;
    var named := st.(value := name);
    var afterOpen := ParserState(st.root, st.path + [Op(name, [])], "", false);
    calc {
      Run(st, Render(n) + rest);
    == { assert Render(n) + rest == name + (['('] + tail); }
      Run(st, name + (['('] + tail));
    == { RunToken(st, name, ['('] + tail); assert st.(value := st.value + name) == named; }
      Run(named, ['('] + tail);
    == { RunCons(named, '(', tail); StepOpen(named); }
      Run(afterOpen, tail);
    == { RunRenderArgs(afterOpen, cs, rest); OpenThenClose(st.path, n); }
      Then(Pop(ParserState(st.root, st.path + [n], "", false)), rest);
    }
  }

  lemma OpenThenClose(path: seq<Node>, n: Node)
    requires n.Op?
    ensures var pushed := path + [Op(n.value, [])];
      pushed[..|pushed| - 1] + [Op(n.value, [] + n.children)] == path + [n]
  {
    assert [] + n.children == n.children;
  }

  /** The path once `child` is the last child of the innermost open op. */
  function Extend(path: seq<Node>, child: Node): seq<Node>
    requires path != []
  {
    var top := path[|path| - 1];
    path[..|path| - 1] + [Op(top.value, Children(top) + [child])]
  }

  /** One argument followed by ')': the argument becomes the last child of
      the innermost open op, which then closes. */
  lemma {:induction false} RunArgumentThenClose(st: ParserState, c: Node, rest: string)
    requires st.value == "" && st.path != []
    requires forall i :: 0 <= i < |st.path| ==> st.path[i].Op?
    requires WellFormed(c)
    ensures Run(st, Render(c) + ([')'] + rest)) == Then(Pop(ParserState(st.root, Extend(st.path, c), "", false)), rest)
    decreases c, 2
  {
    var extended := Extend(st.path, c);
    assert AttachToTop(st.path, c) == Success(extended);
    var closed := ParserState(st.root, extended, "", false);
    if c.Literal? {
      RunToken(st, c.value, [')'] + rest);
      var read := st.(value := c.value);
      assert st.(value := st.value + c.value) == read;
      RunCons(read, ')', rest);
      StepCloseLiteral(read, extended);
      assert read.(path := extended, value := "", wasComma := false) == closed;
    } else {
      RunRenderOp(st, c, [')'] + rest);
      assert Pop(ParserState(st.root, st.path + [c], "", false)) == Success(closed);
      RunCons(closed, ')', rest);
      StepCloseEmpty(closed);
    }
  }

  /** One argument followed by ',': the argument becomes the last child of
      the innermost open op, and the comma is remembered. */
  lemma {:induction false} RunArgumentThenComma(st: ParserState, c: Node, tail: string)
    requires st.value == "" && st.path != []
    requires forall i :: 0 <= i < |st.path| ==> st.path[i].Op?
    requires WellFormed(c)
    ensures Run(st, Render(c) + ([','] + tail)) == Run(ParserState(st.root, Extend(st.path, c), "", true), tail)
    decreases c, 2
  {
    var extended := Extend(st.path, c);
    assert AttachToTop(st.path, c) == Success(extended);
    var next := ParserState(st.root, extended, "", true);
    if c.Literal? {
      RunToken(st, c.value, [','] + tail);
      var read := st.(value := c.value);
      assert st.(value := st.value + c.value) == read;
      RunCons(read, ',', tail);
      StepCommaLiteral(read, extended);
      assert read.(path := extended, value := "", wasComma := true) == next;
    } else {
      var closed := ParserState(st.root, extended, "", false);
      RunRenderOp(st, c, [','] + tail);
      assert Pop(ParserState(st.root, st.path + [c], "", false)) == Success(closed);
      RunCons(closed, ',', tail);
      StepCommaEmpty(closed);
      assert closed.(wasComma := true) == next;
    }
  }

  /** The arguments of the innermost open op and its ')': each argument is
      added to that op in order, then the op is closed. */
  lemma {:induction false} RunRenderArgs(st: ParserState, cs: seq<Node>, rest: string)
    requires st.value == "" && st.path != []
    requires forall i :: 0 <= i < |st.path| ==> st.path[i].Op?
    requires forall i :: 0 <= i < |cs| ==> WellFormed(cs[i])
    requires cs == [] ==> !st.wasComma
    ensures var top := st.path[|st.path| - 1];
      Run(st, RenderArgs(cs) + ")" + rest)
      == Then(Pop(ParserState(st.root, st.path[..|st.path| - 1] + [Op(top.value, top.children + cs)], "", false)), rest)
    decreases cs, 1
  {
    if cs == [] {
      RunNoArguments(st, rest);
    } else if |cs| == 1 {
      RunLastArgument(st, cs, rest);
    } else {
      var tail := RenderArgs(cs[1..]) + ")" + rest;
      RenderArgsSplit(cs, rest);
      RunArgumentThenComma(st, cs[0], tail);
      var next := ParserState(st.root, Extend(st.path, cs[0]), "", true);
      RunRenderArgs(next, cs[1..], rest);
      ExtendThenMore(st.path, cs);
    }
  }

  lemma RunNoArguments(st: ParserState, rest: string)
    requires st.value == "" && !st.wasComma && st.path != [] && st.path[|st.path| - 1].Op?
    ensures var top := st.path[|st.path| - 1];
      Run(st, RenderArgs([]) + ")" + rest)
      == Then(Pop(ParserState(st.root, st.path[..|st.path| - 1] + [Op(top.value, top.children + [])], "", false)), rest)
  {
    var top := st.path[|st.path| - 1];
    assert RenderArgs([]) + ")" + rest == [')'] + rest;
    RunCons(st, ')', rest);
    StepCloseEmpty(st);
    assert top.children + [] == top.children;
    assert Op(top.value, top.children) == top;
    assert st.path[..|st.path| - 1] + [top] == st.path;
    assert st == ParserState(st.root, st.path, "", false);
  }

  lemma {:induction false} RunLastArgument(st: ParserState, cs: seq<Node>, rest: string)
    requires st.value == "" && st.path != []
    requires forall i :: 0 <= i < |st.path| ==> st.path[i].Op?
    requires |cs| == 1 && WellFormed(cs[0])
    ensures var top := st.path[|st.path| - 1];
      Run(st, RenderArgs(cs) + ")" + rest)
      == Then(Pop(ParserState(st.root, st.path[..|st.path| - 1] + [Op(top.value, top.children + cs)], "", false)), rest)
    decreases cs, 0
  {
    assert RenderArgs(cs) + ")" + rest == Render(cs[0]) + ([')'] + rest);
    RunArgumentThenClose(st, cs[0], rest);
    assert [cs[0]] == cs;
  }

  lemma RenderArgsSplit(cs: seq<Node>, rest: string)
    requires |cs| > 1
    ensures RenderArgs(cs) + ")" + rest == Render(cs[0]) + ([','] + (RenderArgs(cs[1..]) + ")" + rest))
  {
  }

  lemma ExtendThenMore(path: seq<Node>, cs: seq<Node>)
    requires path != [] && path[|path| - 1].Op? && cs != []
    ensures var top := path[|path| - 1];
      var e := Extend(path, cs[0]);
      var top' := e[|e| - 1];
      e[..|e| - 1] + [Op(top'.value, top'.children + cs[1..])]
      == path[..|path| - 1] + [Op(top.value, top.children + cs)]
  {
    var top := path[|path| - 1];
    assert top.children + [cs[0]] + cs[1..] == top.children + cs;
  }

  /** Rendering a well-formed op and parsing the text gives the op back. */
  lemma RenderThenParse(t: Node)
    requires t.Op? && WellFormed(t)
    ensures ParseSpec(Render(t)) == Success(t)
  {
    assert Render(t) + "" == Render(t);
    RunRenderOp(Start, t, "");
  }

  /** A tree parse returns, rendered and parsed again, is the same tree. */
  lemma ReparseIsIdentity(s: string)
    requires ParseSpec(s).Success?
    ensures ParseSpec(Render(ParseSpec(s).value)) == ParseSpec(s)
  {
    ParseResultIsWellFormed(s);
    RenderThenParse(ParseSpec(s).value);
  }
}
