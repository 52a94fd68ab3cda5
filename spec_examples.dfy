/** The behaviour of parse on the inputs its documentation and its quirks
    are about, each proved from the model. */
module SpecExamples {
  import opened Wrappers
  import opened SpecNodes
  import opened SpecParser
  import opened SpecGrammar

  lemma NestedCall()
    ensures ParseSpec("a(b,c(d))") == Success(Op("a", [Literal("b"), Op("c", [Literal("d")])]))
  {
    var t := Op("a", [Literal("b"), Op("c", [Literal("d")])]);
    assert RenderArgs([Literal("d")]) == "d";
    assert Render(Op("c", [Literal("d")])) == "c(d)";
    assert RenderArgs([Op("c", [Literal("d")])]) == "c(d)";
    assert RenderArgs(t.children) == "b,c(d)";
    assert Render(t) == "a(b,c(d))";
    RenderThenParse(t);
  }

  lemma LeadingCommaInCall()
    ensures ParseSpec("a(,b)") == Success(Op("a", [Literal("b")]))
  {
    var open := ParserState(None, [Op("a", [])], "", false);
    assert "a(,b)" == "a(" + ",b)";
    CallOpened(",b)");
    calc {
      Run(open, ",b)");
    == { assert ",b)" == [','] + "b)"; RunCons(open, ',', "b)"); StepCommaEmpty(open); }
      Run(open.(wasComma := true), "b)");
    == { assert "b)" == "b)" + ""; LastArgumentClosed(true, ""); }
      Run(ParserState(Some(Op("a", [Literal("b")])), [], "", false), "");
    }
  }

  /** Reading "a(" opens the call `a` with nothing read inside it yet. */
  lemma CallOpened(rest: string)
    ensures Run(Start, "a(" + rest) == Run(ParserState(None, [Op("a", [])], "", false), rest)
  {
    var named := Start.(value := "a");
    calc {
      Run(Start, "a(" + rest);
    == { assert "a(" + rest == ['a'] + ("(" + rest); RunCons(Start, 'a', "(" + rest);
         StepToken(Start, 'a'); assert Start.value + ['a'] == "a"; }
      Run(named, "(" + rest);
    == { assert "(" + rest == ['('] + rest; RunCons(named, '(', rest); StepOpen(named);
         assert named.path + [Op(named.value, [])] == [Op("a", [])]; }
      Run(ParserState(None, [Op("a", [])], "", false), rest);
    }
  }

  /** Inside the open call `a`, reading "b)" attaches `b` as its last argument
      and closes it as the root, whether or not a comma came before. */
  lemma LastArgumentClosed(wasComma: bool, rest: string)
    ensures Run(ParserState(None, [Op("a", [])], "", wasComma), "b)" + rest)
         == Run(ParserState(Some(Op("a", [Literal("b")])), [], "", false), rest)
  {
    var st := ParserState(None, [Op("a", [])], "", wasComma);
    var read := st.(value := "b");
    calc {
      Run(st, "b)" + rest);
    == { assert "b)" + rest == ['b'] + (")" + rest); RunCons(st, 'b', ")" + rest);
         StepToken(st, 'b'); assert st.value + ['b'] == "b"; }
      Run(read, ")" + rest);
    == { assert ")" + rest == [')'] + rest; RunCons(read, ')', rest);
         assert AttachToTop(read.path, Literal("b")) == Success([Op("a", [Literal("b")])]);
         StepCloseLiteral(read, [Op("a", [Literal("b")])]); }
      Then(Pop(ParserState(None, [Op("a", [Literal("b")])], "", false)), rest);
    ==
      Run(ParserState(Some(Op("a", [Literal("b")])), [], "", false), rest);
    }
  }

  /** Reading "a()" closes the first call and records it as the root; what
      follows is read from there. */
  lemma FirstCallClosed(rest: string)
    ensures Run(Start, "a()" + rest) == Run(ParserState(Some(Op("a", [])), [], "", false), rest)
  {
    var open := ParserState(None, [Op("a", [])], "", false);
    assert "a()" + rest == "a(" + (")" + rest);
    CallOpened(")" + rest);
    assert ")" + rest == [')'] + rest;
    RunCons(open, ')', rest);
    StepCloseEmpty(open);
  }

  // Inputs parse refuses, each with the exception it throws.

  lemma DoubleComma()
    ensures ParseSpec("a(b,,c)") == Failure(IllegalArgument(MisplacedComma))
  {
    var afterB := ParserState(None, [Op("a", [Literal("b")])], "", true);
    assert "a(b,,c)" == "a(" + ("b," + ",c)");
    CallOpened("b," + ",c)");
    ArgumentThenComma(",c)");
    assert ",c)" == [','] + "c)";
    RunCons(afterB, ',', "c)");
    assert Step(afterB, ',') == Failure(IllegalArgument(MisplacedComma));
  }

  lemma TrailingComma()
    ensures ParseSpec("a(b,)") == Failure(IllegalArgument(MisplacedComma))
  {
    var afterB := ParserState(None, [Op("a", [Literal("b")])], "", true);
    assert "a(b,)" == "a(" + ("b," + ")");
    CallOpened("b," + ")");
    ArgumentThenComma(")");
    assert ")" == [')'] + "";
    RunCons(afterB, ')', "");
    assert Step(afterB, ')') == Failure(IllegalArgument(MisplacedComma));
  }

  /** Inside the open call `a`, reading "b," attaches `b` and remembers the
      comma. */
  lemma ArgumentThenComma(rest: string)
    ensures Run(ParserState(None, [Op("a", [])], "", false), "b," + rest)
         == Run(ParserState(None, [Op("a", [Literal("b")])], "", true), rest)
  {
    var st := ParserState(None, [Op("a", [])], "", false);
    var read := st.(value := "b");
    calc {
      Run(st, "b," + rest);
    == { assert "b," + rest == ['b'] + ("," + rest); RunCons(st, 'b', "," + rest);
         StepToken(st, 'b'); assert st.value + ['b'] == "b"; }
      Run(read, "," + rest);
    == { assert "," + rest == [','] + rest; RunCons(read, ',', rest);
         assert AttachToTop(read.path, Literal("b")) == Success([Op("a", [Literal("b")])]);
         StepCommaLiteral(read, [Op("a", [Literal("b")])]); }
      Run(ParserState(None, [Op("a", [Literal("b")])], "", true), rest);
    }
  }

  lemma ExtraClose()
    ensures ParseSpec("a(b))") == Failure(NoSuchElement)
  {
    var done := ParserState(Some(Op("a", [Literal("b")])), [], "", false);
    assert "a(b))" == "a(" + ("b)" + ")");
    CallOpened("b)" + ")");
    LastArgumentClosed(false, ")");
    assert ")" == [')'] + "";
    RunCons(done, ')', "");
    StepCloseEmpty(done);
  }

  lemma Unclosed()
    ensures ParseSpec("a(b(") == Failure(IllegalArgument(InvalidSpecString))
  {
  }

  lemma LiteralAfterCall()
    ensures ParseSpec("a()b)") == Failure(IllegalArgument(MisplacedClosingBraces))
  {
  }

  lemma EmptySpec()
    ensures ParseSpec("") == Failure(IllegalArgument(InvalidSpecString))
  {
  }

  // Inputs parse accepts although no rendered tree reads that way: text after
  // the first complete call is read and then dropped.

  lemma SecondCallDropped()
    ensures ParseSpec("a()b()") == Success(Op("a", []))
  {
    var done := ParserState(Some(Op("a", [])), [], "", false);
    assert "a()b()" == "a()" + "b()";
    FirstCallClosed("b()");
    calc {
      Run(done, "b()");
    == { assert "b()" == ['b'] + "()"; RunCons(done, 'b', "()"); StepToken(done, 'b');
         assert done.value + ['b'] == "b"; }
      Run(done.(value := "b"), "()");
    == { assert "()" == ['('] + ")"; RunCons(done.(value := "b"), '(', ")"); StepOpen(done.(value := "b")); }
      Run(ParserState(done.root, [Op("b", [])], "", false), ")");
    == { assert ")" == [')'] + ""; RunCons(ParserState(done.root, [Op("b", [])], "", false), ')', "");
         StepCloseEmpty(ParserState(done.root, [Op("b", [])], "", false)); }
      Success(done);
    }
  }

  lemma TrailingNameDropped()
    ensures ParseSpec("a()b") == Success(Op("a", []))
  {
    var done := ParserState(Some(Op("a", [])), [], "", false);
    assert "a()b" == "a()" + "b";
    FirstCallClosed("b");
    assert "b" == ['b'] + "";
    RunCons(done, 'b', "");
    StepToken(done, 'b');
    assert done.value + ['b'] == "b";
    assert Run(Start, "a()b") == Success(done.(value := "b"));
  }

  lemma EmptyName()
    ensures ParseSpec("()") == Success(Op("", []))
  {
  }
}
