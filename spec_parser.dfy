/** SpecParser.parse: a single-pass scanner that turns a call-style spec such as
    "a(b,c(d))" into a tree of Op and Literal nodes whose root is an Op.

    The loop of the Java code is specified by `Step` (one character) and `Run`
    (a whole string); `ParseSpec` adds the check made after the loop, and the
    method `Parse` is the loop itself, proved to compute `ParseSpec`. */
module SpecParser {
  import opened Wrappers
  import opened SpecNodes

  // Character classes

  /** Character.isWhitespace, for every char of the Basic Multilingual Plane:
      the control characters U+0009..U+000D and U+001C..U+001F, and the space,
      line and paragraph separators other than the three no-break spaces. */
  predicate IsWhitespace(c: char) {
    || ('\t' <= c <= '\r')
    || ('\U{1C}' <= c <= ' ')
    || c == '\U{1680}'
    || ('\U{2000}' <= c <= '\U{2006}')
    || ('\U{2008}' <= c <= '\U{200A}')
    || c == '\U{2028}' || c == '\U{2029}' || c == '\U{205F}' || c == '\U{3000}'
  }

  /** Character.isAlphabetic on U+0000..U+00FF (the ASCII letters and the
      Latin-1 letters); characters above U+00FF count as not alphabetic. */
  predicate IsAlphabetic(c: char) {
    || ('A' <= c <= 'Z') || ('a' <= c <= 'z')
    || c == '\U{AA}' || c == '\U{B5}' || c == '\U{BA}'
    || ('\U{C0}' <= c <= '\U{D6}') || ('\U{D8}' <= c <= '\U{F6}') || ('\U{F8}' <= c <= '\U{FF}')
  }

  /** The characters a name or a literal is made of. */
  predicate IsTokenChar(c: char) {
    IsAlphabetic(c) || c == '*' || c == ':' || c == '.' || c == '-'
  }

  predicate IsToken(s: string) {
    forall i :: 0 <= i < |s| ==> IsTokenChar(s[i])
  }

  // Messages of the IllegalArgumentExceptions parse throws

  const MisplacedClosingBraces := "misplaced closing braces"
  const MisplacedComma := "misplaced comma"
  const InvalidCharacter := "invalid character"
  const InvalidSpecString := "invalid spec string"

  // The loop, one character at a time

  /** The variables of parse between two characters: `path` holds the open
      ops, innermost LAST, each with the children it has so far; `root` is the
      first op opened, recorded when it closes; `value` is the token buffer. */
  datatype ParserState = ParserState(root: Option<Node>, path: seq<Node>, value: string, wasComma: bool)

  const Start := ParserState(None, [], "", false)

  /** path.peek().addChild(child). */
  function AttachToTop(path: seq<Node>, child: Node): (r: Result<seq<Node>, JavaException>)
    requires path != []
    ensures r.Success? <==> path[|path| - 1].Op?
    ensures r.Failure? ==> r.error == IllegalState(LiteralIsLeaf)
    ensures r.Success? ==> |r.value| == |path| && r.value[..|path| - 1] == path[..|path| - 1]
    ensures r.Success? ==> r.value[|path| - 1] == Op(path[|path| - 1].value, path[|path| - 1].children + [child])
  {
    match AddChild(path[|path| - 1], child)
    case Failure(e) => Failure(e)
    case Success(top) => Success(path[..|path| - 1] + [top])
  }

  /** path.pop(): fails on an empty path; otherwise the innermost op is
      closed, and becomes a child of the op below it or, when it was the
      outermost one and no root has closed yet, the root. */
  function Pop(st: ParserState): (r: Result<ParserState, JavaException>)
    ensures st.path == [] <==> r == Failure(NoSuchElement)
    ensures r.Success? ==> |r.value.path| == |st.path| - 1
    ensures r.Success? ==> r.value.value == st.value && r.value.wasComma == st.wasComma
    // the outermost op closes: it is the root unless a root has closed before
    ensures |st.path| == 1 ==> r.Success? && r.value.path == []
    ensures |st.path| == 1 && st.root.None? ==> r.value.root == Some(st.path[0])
    ensures |st.path| == 1 && st.root.Some? ==> r.value.root == st.root
    // an inner op closes: it becomes the last child of the op that encloses it
    ensures |st.path| > 1 ==> (r.Success? <==> st.path[|st.path| - 2].Op?)
    ensures |st.path| > 1 && r.Success? ==>
      && r.value.root == st.root
      && r.value.path[..|st.path| - 2] == st.path[..|st.path| - 2]
      && r.value.path[|st.path| - 2] == Op(st.path[|st.path| - 2].value, st.path[|st.path| - 2].children + [st.path[|st.path| - 1]])
  {
    if st.path == [] then Failure(NoSuchElement)
    else
      var top := st.path[|st.path| - 1];
      var rest := st.path[..|st.path| - 1];
      if rest == [] then
        Success(st.(root := if st.root.None? then Some(top) else st.root, path := []))
      else
        match AttachToTop(rest, top)
        case Failure(e) => Failure(e)
        case Success(path) => Success(st.(path := path))
  }

  /** The body of the loop of parse for character `ch`. */
  function Step(st: ParserState, ch: char): Result<ParserState, JavaException>
  {
    if IsWhitespace(ch) then Success(st)
    else if IsTokenChar(ch) then Success(st.(value := st.value + [ch]))
    else if ch == '(' then
      Success(ParserState(st.root, st.path + [Op(st.value, [])], "", false))
    else if ch == ')' then
      if st.value != "" then
        if st.path == [] then Failure(IllegalArgument(MisplacedClosingBraces))
        else
          match AttachToTop(st.path, Literal(st.value))
          case Failure(e) => Failure(e)
          case Success(path) => Pop(st.(path := path, value := "", wasComma := false))
      else if st.wasComma then Failure(IllegalArgument(MisplacedComma))
      else Pop(st)
    else if ch == ',' then
      if st.value != "" then
        if st.path == [] then Failure(IllegalArgument(MisplacedComma))
        else
          match AttachToTop(st.path, Literal(st.value))
          case Failure(e) => Failure(e)
          case Success(path) => Success(st.(path := path, value := "", wasComma := true))
      else if st.wasComma then Failure(IllegalArgument(MisplacedComma))
      else Success(st.(wasComma := true))
    else Failure(IllegalArgument(InvalidCharacter))
  }

  /** The loop over all of `s`, stopping at the first exception. */
  function Run(st: ParserState, s: string): Result<ParserState, JavaException>
    decreases |s|
  {
    if s == [] then Success(st)
    else
      match Step(st, s[0])
      case Failure(e) => Failure(e)
      case Success(next) => Run(next, s[1..])
  }

  /** Continue an outcome of Run with more input. */
  function Then(r: Result<ParserState, JavaException>, s: string): Result<ParserState, JavaException>
  {
    match r
    case Failure(e) => Failure(e)
    case Success(st) => Run(st, s)
  }

  /** The check after the loop: a root must have been opened and nothing may
      be left open. */
  function Finish(r: Result<ParserState, JavaException>): Result<Node, JavaException>
  {
    match r
    case Failure(e) => Failure(e)
    case Success(st) =>
      if st.root.None? || st.path != [] then Failure(IllegalArgument(InvalidSpecString))
      else Success(st.root.value)
  }

  /** What parse returns or throws for `spec`. */
  function ParseSpec(spec: string): Result<Node, JavaException>
  {
    Finish(Run(Start, spec))
  }

  /** SpecParser.parse. */
  method Parse(spec: string) returns (r: Result<Node, JavaException>)
    ensures r == ParseSpec(spec)
  {
    var root: Option<Node> := None;
    var path: seq<Node> := [];
    var value := "";
    var wasComma := false;
    for idx := 0 to |spec|
      invariant Run(Start, spec[..idx]) == Success(ParserState(root, path, value, wasComma))
    {
      var ch := spec[idx];
      assert spec[..idx + 1] == spec[..idx] + [ch];
      RunAppend(Start, spec[..idx], [ch]);
      RunOne(ParserState(root, path, value, wasComma), ch);
      if !IsWhitespace(ch) {
        if IsTokenChar(ch) {
          value := value + [ch];
        } else if ch == '(' {
          path := path + [Op(value, [])];
          value := "";
          wasComma := false;
        } else if ch == ')' {
          if value != "" {
            if path == [] {
              r := Failure(IllegalArgument(MisplacedClosingBraces));
              FailureIsFinal(spec, idx + 1, r.error);
              return;
            }
            var attached := AttachToTop(path, Literal(value));
            if attached.Failure? {
              r := Failure(attached.error);
              FailureIsFinal(spec, idx + 1, r.error);
              return;
            }
            path := attached.value;
            value := "";
          } else if wasComma {
            r := Failure(IllegalArgument(MisplacedComma));
            FailureIsFinal(spec, idx + 1, r.error);
            return;
          }
          wasComma := false;
          var popped := Pop(ParserState(root, path, value, wasComma));
          if popped.Failure? {
            r := Failure(popped.error);
            FailureIsFinal(spec, idx + 1, r.error);
            return;
          }
          root, path := popped.value.root, popped.value.path;
        } else if ch == ',' {
          if value != "" {
            if path == [] {
              r := Failure(IllegalArgument(MisplacedComma));
              FailureIsFinal(spec, idx + 1, r.error);
              return;
            }
            var attached := AttachToTop(path, Literal(value));
            if attached.Failure? {
              r := Failure(attached.error);
              FailureIsFinal(spec, idx + 1, r.error);
              return;
            }
            path := attached.value;
            value := "";
          } else if wasComma {
            r := Failure(IllegalArgument(MisplacedComma));
            FailureIsFinal(spec, idx + 1, r.error);
            return;
          }
          wasComma := true;
        } else {
          r := Failure(IllegalArgument(InvalidCharacter));
          FailureIsFinal(spec, idx + 1, r.error);
          return;
        }
      }
    }
    assert spec[..|spec|] == spec;
    if root.None? || path != [] {
      r := Failure(IllegalArgument(InvalidSpecString));
      return;
    }
    r := Success(root.value);
  }

  // Properties of the loop

  /** Running over `p + q` is running over `p`, then over `q`. */
  lemma {:induction false} RunAppend(st: ParserState, p: string, q: string)
    ensures Run(st, p + q) == Then(Run(st, p), q)
    decreases |p|
  {
    if p == [] {
      assert p + q == q;
    } else {
      assert (p + q)[0] == p[0];
      assert (p + q)[1..] == p[1..] + q;
      match Step(st, p[0])
      case Failure(_) =>
      case Success(next) => RunAppend(next, p[1..], q);
    }
  }

  lemma RunOne(st: ParserState, ch: char)
    ensures Run(st, [ch]) == Step(st, ch)
  {
    assert [ch][1..] == [];
  }

  lemma RunCons(st: ParserState, ch: char, rest: string)
    ensures Run(st, [ch] + rest) == Then(Step(st, ch), rest)
  {
    assert ([ch] + rest)[0] == ch && ([ch] + rest)[1..] == rest;
  }

  // Step on the structural characters

  lemma StepToken(st: ParserState, ch: char)
    requires IsTokenChar(ch)
    ensures Step(st, ch) == Success(st.(value := st.value + [ch]))
  {
  }

  lemma StepOpen(st: ParserState)
    ensures Step(st, '(') == Success(ParserState(st.root, st.path + [Op(st.value, [])], "", false))
  {
  }

  lemma StepCloseEmpty(st: ParserState)
    requires st.value == "" && !st.wasComma
    ensures Step(st, ')') == Pop(st)
  {
  }

  lemma StepCloseLiteral(st: ParserState, path: seq<Node>)
    requires st.value != "" && st.path != []
    requires AttachToTop(st.path, Literal(st.value)) == Success(path)
    ensures Step(st, ')') == Pop(st.(path := path, value := "", wasComma := false))
  {
  }

  lemma StepCommaEmpty(st: ParserState)
    requires st.value == "" && !st.wasComma
    ensures Step(st, ',') == Success(st.(wasComma := true))
  {
  }

  lemma StepCommaLiteral(st: ParserState, path: seq<Node>)
    requires st.value != "" && st.path != []
    requires AttachToTop(st.path, Literal(st.value)) == Success(path)
    ensures Step(st, ',') == Success(st.(path := path, value := "", wasComma := true))
  {
  }

  /** A run of token characters never fails: it only extends the buffer, so
      the characters of a name or a literal reach it in order and nothing else
      changes. */
  lemma {:induction false} TokensAccumulate(st: ParserState, s: string)
    requires IsToken(s)
    ensures Run(st, s) == Success(st.(value := st.value + s))
    decreases |s|
  {
    if s == [] {
      assert st.value + s == st.value;
    } else {
      var next := st.(value := st.value + [s[0]]);
      assert Step(st, s[0]) == Success(next);
      TokensAccumulate(next, s[1..]);
      assert next.value + s[1..] == st.value + s;
    }
  }

  /** An exception thrown while reading the first k characters is what parse
      throws. */
  lemma FailureIsFinal(spec: string, k: nat, e: JavaException)
    requires k <= |spec|
    requires Run(Start, spec[..k]) == Failure(e)
    ensures ParseSpec(spec) == Failure(e)
  {
    assert spec == spec[..k] + spec[k..];
    RunAppend(Start, spec[..k], spec[k..]);
  }

  /** `s` without its whitespace. */
  function RemoveWhitespace(s: string): (r: string)
    ensures forall i :: 0 <= i < |r| ==> !IsWhitespace(r[i])
    ensures |r| <= |s|
  {
    if s == [] then []
    else if IsWhitespace(s[0]) then RemoveWhitespace(s[1..])
    else [s[0]] + RemoveWhitespace(s[1..])
  }

  lemma {:induction false} RunIgnoresWhitespace(st: ParserState, s: string)
    ensures Run(st, s) == Run(st, RemoveWhitespace(s))
    decreases |s|
  {
    if s != [] {
      RunIgnoresWhitespace(st, s[1..]);
      match Step(st, s[0])
      case Failure(_) =>
      case Success(next) => RunIgnoresWhitespace(next, s[1..]);
    }
  }

  /** Whitespace is skipped without ending a token: removing it from a spec
      changes neither the tree nor the exception ("a b(c)" is "ab(c)"). */
  lemma WhitespaceIsIgnored(s: string)
    ensures ParseSpec(s) == ParseSpec(RemoveWhitespace(s))
  {
    RunIgnoresWhitespace(Start, s);
  }

  /** Without '(' no op is ever opened, so the root stays unset. */
  lemma {:induction false} RunWithoutOpen(st: ParserState, s: string)
    requires st.root.None? && st.path == []
    requires '(' !in s
    ensures Run(st, s).Success? ==> Run(st, s).value.root.None? && Run(st, s).value.path == []
    decreases |s|
  {
    if s != [] {
      assert s[0] in s;
      assert forall c :: c in s[1..] ==> c in s;
      match Step(st, s[0])
      case Failure(_) =>
      case Success(next) => RunWithoutOpen(next, s[1..]);
    }
  }

  /** parse fails on every spec without '(': the empty string, a bare
      literal such as "a". */
  lemma NoOpenFails(s: string)
    requires '(' !in s
    ensures ParseSpec(s).Failure?
  {
    RunWithoutOpen(Start, s);
  }

  /** One character changes the depth of the path only through '(' and ')'. */
  lemma StepDepth(st: ParserState, ch: char)
    requires Step(st, ch).Success?
    ensures |Step(st, ch).value.path| + (if ch == ')' then 1 else 0) == |st.path| + (if ch == '(' then 1 else 0)
  {
  }

  lemma {:induction false} RunDepth(st: ParserState, s: string)
    requires Run(st, s).Success?
    ensures |Run(st, s).value.path| + multiset(s)[')'] == |st.path| + multiset(s)['(']
    decreases |s|
  {
    if s != [] {
      assert s == [s[0]] + s[1..];
      StepDepth(st, s[0]);
      RunDepth(Step(st, s[0]).value, s[1..]);
    }
  }

  /** Every spec parse accepts has as many ')' as '(', and at least one:
      an op left open ("a(b(") and a surplus ')' ("a(b))") both fail. */
  lemma AcceptedIsBalanced(s: string)
    requires ParseSpec(s).Success?
    ensures multiset(s)['('] == multiset(s)[')'] >= 1
  {
    RunDepth(Start, s);
    if '(' !in s {
      NoOpenFails(s);
    }
  }

  /** Once the root has closed, it never changes. */
  lemma {:induction false} RootIsKept(st: ParserState, s: string)
    requires st.root.Some?
    requires Run(st, s).Success?
    ensures Run(st, s).value.root == st.root
    decreases |s|
  {
    if s != [] {
      RootIsKept(Step(st, s[0]).value, s[1..]);
    }
  }

  /** Text after the root has closed cannot change the result; it can only
      make parse fail: "a()b()" and "a()b" both give a(). */
  lemma LaterInputKeepsRoot(p: string, q: string, t: Node)
    requires ParseSpec(p) == Success(t)
    requires ParseSpec(p + q).Success?
    ensures ParseSpec(p + q) == Success(t)
  {
    RunAppend(Start, p, q);
    RootIsKept(Run(Start, p).value, q);
  }

  /** A character that is not whitespace, not a token character and not one
      of '(', ')' and ',' makes parse fail, with "invalid character" unless
      an earlier character already failed. */
  lemma InvalidCharacterFails(s: string, i: nat)
    requires i < |s|
    requires !IsWhitespace(s[i]) && !IsTokenChar(s[i]) && s[i] != '(' && s[i] != ')' && s[i] != ','
    ensures ParseSpec(s).Failure?
    ensures Run(Start, s[..i]).Success? ==> ParseSpec(s) == Failure(IllegalArgument(InvalidCharacter))
  {
    assert s[..i + 1] == s[..i] + [s[i]];
    RunAppend(Start, s[..i], [s[i]]);
    match Run(Start, s[..i])
    case Failure(e) =>
      RunAppend(Start, s[..i], s[i..]);
      assert s == s[..i] + s[i..];
    case Success(_) =>
      FailureIsFinal(s, i + 1, IllegalArgument(InvalidCharacter));
  }

  /** Digits are not token characters: "a(1)" fails. */
  lemma DigitsAreRejected(s: string, i: nat)
    requires i < |s| && '0' <= s[i] <= '9'
    ensures ParseSpec(s).Failure?
  {
    InvalidCharacterFails(s, i);
  }
}
