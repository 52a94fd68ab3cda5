/** Depth-first traversal of a parsed spec (Node.accept with a Visitor) and the
    Dump visitor's indentation. A Java visitor is an object whose two hooks
    update its own fields; here a visitor is a pair of hooks that take the
    visitor's state and return the new state with the hook's boolean answer. */
module SpecVisitor {
  import opened SpecNodes

  /** visitEnter and visitExit over a visitor state S. */
  datatype Visitor<!S> = Visitor(enter: (S, Node) -> (S, bool), exit: (S, Node) -> (S, bool))

  /** One hook call as the traversal makes it, with the hook's answer. */
  datatype Event = Enter(node: Node, descend: bool) | Exit(node: Node, result: bool)

  /** The visitor state after a traversal, its boolean answer and the hook
      calls made, in order. */
  datatype Visit<S> = Visit(state: S, result: bool, trace: seq<Event>)

  /** accept: enter the node; only if visitEnter says so, walk the children in
      order; then exit the node and answer what visitExit answers. */
  function Walk<S>(v: Visitor<S>, s: S, n: Node): (w: Visit<S>)
    ensures |w.trace| >= 2
    ensures w.trace[0] == Enter(n, v.enter(s, n).1)
    ensures w.trace[|w.trace| - 1] == Exit(n, w.result)
    decreases n, 2
  {
    var inner := Inside(v, s, n);
    var exited := v.exit(inner.state, n);
    Visit(exited.0, exited.1, [Enter(n, v.enter(s, n).1)] + inner.trace + [Exit(n, exited.1)])
  }

  /** What the loop of accept walks: the children when visitEnter answered
      true, nothing otherwise. */
  function Inside<S>(v: Visitor<S>, s: S, n: Node): Visit<S>
    decreases n, 1
  {
    var entered := v.enter(s, n);
    if entered.1 && n.Op? then WalkChildren(v, entered.0, n.children) else Visit(entered.0, true, [])
  }

  /** The for loop of accept: walk each child in turn and stop after the first
      one whose walk answers false; the answer says whether the loop ran to
      the end without stopping. */
  function WalkChildren<S>(v: Visitor<S>, s: S, cs: seq<Node>): (w: Visit<S>)
    decreases cs, 0
  {
    if cs == [] then Visit(s, true, [])
    else
      var first := Walk(v, s, cs[0]);
      if !first.result then first
      else
        var rest := WalkChildren(v, first.state, cs[1..]);
        Visit(rest.state, rest.result, first.trace + rest.trace)
  }

  /** `w` with the hook calls `t` made before it. */
  function After<S>(t: seq<Event>, w: Visit<S>): Visit<S>
  {
    Visit(w.state, w.result, t + w.trace)
  }

  /** One turn of the loop over the children, from position `i`. */
  lemma WalkChildrenFrom<S>(v: Visitor<S>, s: S, cs: seq<Node>, i: nat)
    requires i < |cs|
    ensures var first := Walk(v, s, cs[i]);
      WalkChildren(v, s, cs[i..]) ==
        if !first.result then first else After(first.trace, WalkChildren(v, first.state, cs[i + 1..]))
  {
    assert cs[i..][0] == cs[i] && cs[i..][1..] == cs[i + 1..];
  }

  lemma AfterAfter<S>(a: seq<Event>, b: seq<Event>, w: Visit<S>)
    ensures After(a, After(b, w)) == After(a + b, w)
  {
  }

  /** Node.accept as the Java method runs it: a recursive call per child inside
      a loop that breaks on the first false answer. */
  method Accept<S>(n: Node, v: Visitor<S>, s: S) returns (r: bool, s': S, ghost trace: seq<Event>)
    ensures r == Walk(v, s, n).result && s' == Walk(v, s, n).state
    ensures trace == Walk(v, s, n).trace
    decreases n, 1
  {
    var entered := v.enter(s, n);
    var state := entered.0;
    ghost var acc: seq<Event> := [];
    if entered.1 {
      var cs := Children(n);
      var i := 0;
      while i < |cs|
        invariant 0 <= i <= |cs|
        invariant WalkChildren(v, entered.0, cs) == After(acc, WalkChildren(v, state, cs[i..]))
        decreases |cs| - i
      {
        assert cs[i] in n.children;
        WalkChildrenFrom(v, state, cs, i);
        var ok, next, t := Accept(cs[i], v, state);
        ghost var done := acc;
        acc := acc + t;
        state := next;
        if !ok {
          break;
        }
        AfterAfter(done, t, WalkChildren(v, next, cs[i + 1..]));
        i := i + 1;
      }
    }
    assert Inside(v, s, n).state == state && Inside(v, s, n).trace == acc;
    var exited := v.exit(state, n);
    r := exited.1;
    s' := exited.0;
    trace := [Enter(n, entered.1)] + acc + [Exit(n, r)];
  }

  // ----- every entered node is exited exactly once -----

  /** The nodes passed to visitEnter, in order. */
  function Entered(t: seq<Event>): seq<Node>
  {
    if t == [] then []
    else (if t[0].Enter? then [t[0].node] else []) + Entered(t[1..])
  }

  /** The nodes passed to visitExit, in order. */
  function Exited(t: seq<Event>): seq<Node>
  {
    if t == [] then []
    else (if t[0].Exit? then [t[0].node] else []) + Exited(t[1..])
  }

  lemma {:induction false} EnteredAppend(a: seq<Event>, b: seq<Event>)
    ensures Entered(a + b) == Entered(a) + Entered(b)
    ensures Exited(a + b) == Exited(a) + Exited(b)
  {
    if a != [] {
      assert (a + b)[1..] == a[1..] + b;
      EnteredAppend(a[1..], b);
    } else {
      assert a + b == b;
    }
  }

  /** visitExit is called exactly once for every node visitEnter was called on,
      whatever the hooks answer. */
  lemma {:induction false} ExitOncePerEnter<S>(v: Visitor<S>, s: S, n: Node)
    ensures multiset(Exited(Walk(v, s, n).trace)) == multiset(Entered(Walk(v, s, n).trace))
    ensures Entered(Walk(v, s, n).trace)[0] == n
    decreases n, 1
  {
    var entered := v.enter(s, n);
    var inner := Inside(v, s, n);
    var exited := v.exit(inner.state, n);
    if entered.1 && n.Op? {
      ChildrenExitOncePerEnter(v, entered.0, n.children);
    }
    assert Walk(v, s, n).trace == [Enter(n, entered.1)] + inner.trace + [Exit(n, exited.1)];
    WrapBalanced(n, entered.1, exited.1, inner.trace);
  }

  /** Wrapping a balanced run of hook calls in an enter and an exit of the
      same node keeps it balanced. */
  lemma WrapBalanced(n: Node, b: bool, r: bool, t: seq<Event>)
    requires multiset(Exited(t)) == multiset(Entered(t))
    ensures var u := [Enter(n, b)] + t + [Exit(n, r)];
      multiset(Exited(u)) == multiset(Entered(u)) && Entered(u)[0] == n
  {
    EnteredAppend([Enter(n, b)], t);
    EnteredAppend([Enter(n, b)] + t, [Exit(n, r)]);
    assert Entered([Enter(n, b)]) == [n];
    assert Exited([Enter(n, b)]) == [];
    assert Entered([Exit(n, r)]) == [];
    assert Exited([Exit(n, r)]) == [n];
  }

  lemma {:induction false} ChildrenExitOncePerEnter<S>(v: Visitor<S>, s: S, cs: seq<Node>)
    ensures multiset(Exited(WalkChildren(v, s, cs).trace)) == multiset(Entered(WalkChildren(v, s, cs).trace))
    decreases cs, 0
  {
    if cs != [] {
      var first := Walk(v, s, cs[0]);
      ExitOncePerEnter(v, s, cs[0]);
      if first.result {
        var rest := WalkChildren(v, first.state, cs[1..]);
        ChildrenExitOncePerEnter(v, first.state, cs[1..]);
        EnteredAppend(first.trace, rest.trace);
      }
    }
  }

  // ----- children are walked in order and the loop stops at the first false -----

  /** The nodes entered at nesting depth zero, reading `t` from nesting depth `d`. */
  function TopEntered(t: seq<Event>, d: nat): seq<Node>
  {
    if t == [] then []
    else match t[0]
      case Enter(n, _) => (if d == 0 then [n] else []) + TopEntered(t[1..], d + 1)
      case Exit(_, _) => TopEntered(t[1..], if d == 0 then 0 else d - 1)
  }

  /** The answers of the exits that return to nesting depth zero, reading `t`
      from nesting depth `d`. */
  function TopAnswers(t: seq<Event>, d: nat): seq<bool>
  {
    if t == [] then []
    else match t[0]
      case Enter(_, _) => TopAnswers(t[1..], d + 1)
      case Exit(_, r) => (if d == 1 then [r] else []) + TopAnswers(t[1..], if d == 0 then 0 else d - 1)
  }

  lemma TopEnterCons(n: Node, b: bool, t: seq<Event>, d: nat)
    ensures TopEntered([Enter(n, b)] + t, d) == (if d == 0 then [n] else []) + TopEntered(t, d + 1)
    ensures TopAnswers([Enter(n, b)] + t, d) == TopAnswers(t, d + 1)
  {
    assert ([Enter(n, b)] + t)[1..] == t;
  }

  lemma TopExitCons(n: Node, r: bool, t: seq<Event>, d: nat)
    ensures TopEntered([Exit(n, r)] + t, d + 1) == TopEntered(t, d)
    ensures TopAnswers([Exit(n, r)] + t, d + 1) == (if d == 0 then [r] else []) + TopAnswers(t, d)
  {
    assert ([Exit(n, r)] + t)[1..] == t;
  }

  /** A walk of `n` followed by `u`, read from depth `d`: at depth zero it
      contributes exactly `n` and its answer; deeper it contributes nothing. */
  lemma {:induction false} WalkTops<S>(v: Visitor<S>, s: S, n: Node, u: seq<Event>, d: nat)
    ensures TopEntered(Walk(v, s, n).trace + u, d) == (if d == 0 then [n] else []) + TopEntered(u, d)
    ensures TopAnswers(Walk(v, s, n).trace + u, d) == (if d == 0 then [Walk(v, s, n).result] else []) + TopAnswers(u, d)
    decreases n, 1
  {
    var entered := v.enter(s, n);
    var inner := Inside(v, s, n);
    var exited := v.exit(inner.state, n);
    var tail := [Exit(n, exited.1)] + u;
    assert Walk(v, s, n).trace + u == [Enter(n, entered.1)] + (inner.trace + tail);
    TopEnterCons(n, entered.1, inner.trace + tail, d);
    if entered.1 && n.Op? {
      ChildrenTops(v, entered.0, n.children, tail, d + 1);
    } else {
      assert inner.trace + tail == tail;
    }
    TopExitCons(n, exited.1, u, d);
  }

  /** Below depth zero the walk of a child list contributes nothing. */
  lemma {:induction false} ChildrenTops<S>(v: Visitor<S>, s: S, cs: seq<Node>, u: seq<Event>, d: nat)
    requires d >= 1
    ensures TopEntered(WalkChildren(v, s, cs).trace + u, d) == TopEntered(u, d)
    ensures TopAnswers(WalkChildren(v, s, cs).trace + u, d) == TopAnswers(u, d)
    decreases cs, 0
  {
    if cs == [] {
      assert WalkChildren(v, s, cs).trace + u == u;
    } else {
      var first := Walk(v, s, cs[0]);
      if !first.result {
        WalkTops(v, s, cs[0], u, d);
      } else {
        var rest := WalkChildren(v, first.state, cs[1..]);
        assert WalkChildren(v, s, cs).trace + u == first.trace + (rest.trace + u);
        WalkTops(v, s, cs[0], rest.trace + u, d);
        ChildrenTops(v, first.state, cs[1..], u, d);
      }
    }
  }

  /** The loop over the children: the children walked are a prefix of the list,
      in list order; each walked child but the last answered true; the loop
      stops early only after a false answer, and it reports running to the end
      exactly when every child was walked and every answer was true. */
  lemma {:induction false} ChildrenInOrder<S>(v: Visitor<S>, s: S, cs: seq<Node>)
    ensures var w := WalkChildren(v, s, cs);
      InOrder(cs, TopEntered(w.trace, 0), TopAnswers(w.trace, 0), w.result)
    decreases cs
  {
    if cs != [] {
      var first := Walk(v, s, cs[0]);
      if !first.result {
        WalkTops(v, s, cs[0], [], 0);
        assert first.trace + [] == first.trace;
        assert WalkChildren(v, s, cs) == first;
        assert TopEntered(first.trace, 0) == [cs[0]] && TopAnswers(first.trace, 0) == [false];
        InOrderStop(cs);
      } else {
        var rest := WalkChildren(v, first.state, cs[1..]);
        assert WalkChildren(v, s, cs) == Visit(rest.state, rest.result, first.trace + rest.trace);
        WalkTops(v, s, cs[0], rest.trace, 0);
        ChildrenInOrder(v, first.state, cs[1..]);
        InOrderCons(cs[0], cs[1..], TopEntered(rest.trace, 0), TopAnswers(rest.trace, 0), rest.result);
        assert [cs[0]] + cs[1..] == cs;
      }
    }
  }

  /** What the loop over `cs` walked and heard: a prefix of the children in
      order, at least one when there are any; every answer but the last is
      true; an early stop follows a false answer; and `result` says exactly
      that every child was walked and every answer was true. */
  predicate InOrder(cs: seq<Node>, walked: seq<Node>, answers: seq<bool>, result: bool)
  {
    && |walked| <= |cs| && walked == cs[..|walked|]
    && |answers| == |walked|
    && (cs != [] ==> |walked| >= 1)
    && (forall i :: 0 <= i < |answers| - 1 ==> answers[i])
    && (|walked| < |cs| ==> !answers[|answers| - 1])
    && (result <==> |walked| == |cs| && AllTrue(answers))
  }

  predicate AllTrue(bs: seq<bool>)
  {
    forall i :: 0 <= i < |bs| ==> bs[i]
  }

  /** The first child answered false: the loop stops there. */
  lemma InOrderStop(cs: seq<Node>)
    requires cs != []
    ensures InOrder(cs, [cs[0]], [false], false)
  {
  }

  /** The first child answered true: the rest of the loop walks the rest. */
  lemma InOrderCons(c: Node, cs: seq<Node>, walked: seq<Node>, answers: seq<bool>, result: bool)
    requires InOrder(cs, walked, answers, result)
    ensures InOrder([c] + cs, [c] + walked, [true] + answers, result)
  {
    var all := [true] + answers;
    assert ([c] + cs)[..|walked| + 1] == [c] + cs[..|walked|];
    assert AllTrue(all) == AllTrue(answers) by {
      forall i | 0 <= i < |answers|
        ensures answers[i] == all[i + 1]
      {
      }
    }
    forall i | 0 <= i < |all| - 1
      ensures all[i]
    {
      if i > 0 {
        assert all[i] == answers[i - 1];
      }
    }
  }

  /** accept on `n`: the first hook call enters `n` and the last exits it with
      the answer accept returns; between them come the children's walks, none
      when visitEnter answered false, otherwise a prefix of the children in
      order as ChildrenInOrder describes. */
  lemma AcceptVisitsChildrenInOrder<S>(v: Visitor<S>, s: S, n: Node)
    ensures var w := Walk(v, s, n);
      var between := w.trace[1..|w.trace| - 1];
      var entered := v.enter(s, n);
      && (!entered.1 ==> between == [])
      && (entered.1 ==> between == WalkChildren(v, entered.0, Children(n)).trace)
  {
    var entered := v.enter(s, n);
    var inner := Inside(v, s, n);
    var w := Walk(v, s, n);
    assert w.trace == [Enter(n, entered.1)] + inner.trace + [Exit(n, w.result)];
    assert w.trace[1..|w.trace| - 1] == inner.trace;
  }

  // ----- Dump -----

  /** Dump's state: its `nodes` deque (front first) and the lines it prints. */
  datatype DumpState = DumpState(nodes: seq<Node>, lines: seq<string>)

  /** The indentation for a node entered while `depth` nodes are on the deque:
      one two-space unit for each of 0..depth. */
  function Indent(depth: nat): (r: string)
    ensures |r| == 2 * (depth + 1)
    ensures forall i :: 0 <= i < |r| ==> r[i] == ' '
  {
    if depth == 0 then "  " else "  " + Indent(depth - 1)
  }

  /** The line Dump prints on entering `n`. */
  function DumpLine(depth: nat, n: Node): string
  {
    Indent(depth) + n.value + (if n.Literal? then " (lit)" else " (op)")
  }

  /** visitEnter of Dump: print the line, push the node, go on. */
  function DumpEnter(s: DumpState, n: Node): (DumpState, bool)
  {
    (DumpState([n] + s.nodes, s.lines + [DumpLine(|s.nodes|, n)]), true)
  }

  /** visitExit of Dump: pop unless the deque is empty, go on. */
  function DumpExit(s: DumpState, n: Node): (DumpState, bool)
  {
    (if s.nodes != [] then s.(nodes := s.nodes[1..]) else s, true)
  }

  const Dump: Visitor<DumpState> := Visitor(DumpEnter, DumpExit)

  /** The outline of `n`: its own line at `depth`, then each child's outline
      one level deeper, in order. */
  function Outline(n: Node, depth: nat): seq<string>
    decreases n, 1
  {
    [DumpLine(depth, n)] + (if n.Op? then Outlines(n.children, depth + 1) else [])
  }

  function Outlines(cs: seq<Node>, depth: nat): seq<string>
    decreases cs, 0
  {
    if cs == [] then [] else Outline(cs[0], depth) + Outlines(cs[1..], depth)
  }

  /** Dumping `n` prints its outline, indented by the deque's current depth,
      visits every node, answers true and leaves the deque as it found it. */
  lemma {:induction false} DumpPrintsOutline(nodes: seq<Node>, lines: seq<string>, n: Node)
    ensures Walk(Dump, DumpState(nodes, lines), n).state == DumpState(nodes, lines + Outline(n, |nodes|))
    ensures Walk(Dump, DumpState(nodes, lines), n).result
    decreases n, 1
  {
    var pushed := DumpState([n] + nodes, lines + [DumpLine(|nodes|, n)]);
    assert Dump.enter(DumpState(nodes, lines), n) == (pushed, true);
    var inner := Inside(Dump, DumpState(nodes, lines), n);
    if n.Op? {
      DumpPrintsOutlines([n] + nodes, lines + [DumpLine(|nodes|, n)], n.children);
    }
    assert ([n] + nodes)[1..] == nodes;
    assert Dump.exit(inner.state, n) == (DumpState(nodes, inner.state.lines), true);
  }

  lemma {:induction false} DumpPrintsOutlines(nodes: seq<Node>, lines: seq<string>, cs: seq<Node>)
    ensures WalkChildren(Dump, DumpState(nodes, lines), cs) == Visit(DumpState(nodes, lines + Outlines(cs, |nodes|)), true, WalkChildren(Dump, DumpState(nodes, lines), cs).trace)
    decreases cs, 0
  {
    if cs == [] {
      assert lines + [] == lines;
    } else {
      DumpPrintsOutline(nodes, lines, cs[0]);
      var mid := lines + Outline(cs[0], |nodes|);
      DumpPrintsOutlines(nodes, mid, cs[1..]);
      assert mid + Outlines(cs[1..], |nodes|) == lines + Outlines(cs, |nodes|);
    }
  }

  /** The whole printout of a Dump started on `n`: the root's line is indented
      by one unit, and every node has exactly one line. */
  lemma DumpOfRoot(n: Node)
    ensures Walk(Dump, DumpState([], []), n).state.lines == Outline(n, 0)
    ensures Outline(n, 0)[0] == "  " + n.value + (if n.Literal? then " (lit)" else " (op)")
  {
    DumpPrintsOutline([], [], n);
  }
}
