/** The tree that the spec parser produces: a Literal is a leaf holding a raw
    string, an Op is a named call with ordered children. */
module SpecNodes {
  import opened Wrappers

  /** A node of a parsed spec. Both kinds carry `value` (getValue): the text
      of a Literal, the name of an Op. */
  datatype Node = Literal(value: string) | Op(value: string, children: seq<Node>)

  const LiteralIsLeaf := "string literal is leaf"

  /** getChildren: an Op lists its children in the order they were added; a
      Literal always reports none. */
  function Children(n: Node): (cs: seq<Node>)
    ensures n.Literal? ==> cs == []
    ensures n.Op? ==> cs == n.children
  {
    match n
    case Literal(_) => []
    case Op(_, cs) => cs
  }

  /** addChild: an Op gains `child` as its last child and keeps the others;
      a Literal refuses with an IllegalStateException. */
  function AddChild(n: Node, child: Node): (r: Result<Node, JavaException>)
    ensures r.Failure? <==> n.Literal?
    ensures r.Failure? ==> r.error == IllegalState(LiteralIsLeaf)
    ensures r.Success? ==> r.value.Op? && r.value.value == n.value
    ensures r.Success? ==> |r.value.children| == |Children(n)| + 1
    ensures r.Success? ==> r.value.children[..|Children(n)|] == Children(n)
    ensures r.Success? ==> r.value.children[|Children(n)|] == child
  {
    match n
    case Literal(_) => Failure(IllegalState(LiteralIsLeaf))
    case Op(name, cs) => Success(Op(name, cs + [child]))
  }
}
