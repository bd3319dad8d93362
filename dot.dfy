// The Graphviz rendering of one entity: a box for the entity, a plain-text
// node per port, an edge from each input into the box and from the box to
// each output.

module Dot {
  import opened Text
  import opened Entities

  function Header(name: string): string {
    "digraph " + name + " {"
  }

  const GraphAttributes: string := "    graph [ splines=ortho, " + "rankdir=LR];"
  const NodeAttributes: string := "    node [ shape=record, " + "fontname=\"monospace\"];"
  const Compound: string := "    compound=true;"
  const Footer: string := "}"

  function Max(a: int, b: int): (m: int)
    ensures m >= a && m >= b && (m == a || m == b)
  {
    if a >= b then a else b
  }

  /** The height given to the entity box: one less than the longer port
      list, so -1 for an entity without ports. */
  function Height(e: Entity): (h: int)
    ensures h >= -1
    ensures h == -1 <==> |e.inputs| == 0 && |e.outputs| == 0
    ensures h + 1 >= |e.inputs| && h + 1 >= |e.outputs|
    ensures h + 1 == |e.inputs| || h + 1 == |e.outputs|
  {
    Max(|e.inputs|, |e.outputs|) - 1
  }

  /** The entity box: indented, named, keeping to one line when its name does. */
  function EntityNode(e: Entity): (s: string)
    ensures "    " + e.name <= s
    ensures NoNewline(e.name) ==> NoNewline(s)
  {
    IntToStringNoNewline(Height(e));
    "    " + e.name + " [ label=\"" + e.name + "\", height=" + IntToString(Height(e))
    + ", width=2, fontsize=20 ];"
  }

  /** A port's text node, keeping to one line when its name does. */
  function PortNode(p: Port): (s: string)
    ensures "    " + p.name <= s
    ensures NoNewline(p.name) ==> NoNewline(s)
  {
    "    " + p.name + " [ shape=plaintext ];"
  }

  /** The edge from an input into the box, starting at the port. */
  function InEdge(p: Port, name: string): (s: string)
    ensures "    " + p.name + " -> " <= s
    ensures NoNewline(p.name) && NoNewline(name) ==> NoNewline(s)
  {
    "    " + p.name + " -> " + name + ";"
  }

  /** The edge from the box to an output, starting at the box. */
  function OutEdge(name: string, p: Port): (s: string)
    ensures "    " + name + " -> " <= s
    ensures NoNewline(p.name) && NoNewline(name) ==> NoNewline(s)
  {
    "    " + name + " -> " + p.name + ";"
  }

  /** For each input in order, its node line and then its edge into `name`. */
  function InputLines(ps: seq<Port>, name: string): (r: seq<string>)
    ensures |r| == 2 * |ps|
  {
    if |ps| == 0 then []
    else InputLines(ps[..|ps| - 1], name) + [PortNode(ps[|ps| - 1]), InEdge(ps[|ps| - 1], name)]
  }

  /** For each output in order, its node line and then its edge out of `name`. */
  function OutputLines(ps: seq<Port>, name: string): (r: seq<string>)
    ensures |r| == 2 * |ps|
  {
    if |ps| == 0 then []
    else OutputLines(ps[..|ps| - 1], name) + [PortNode(ps[|ps| - 1]), OutEdge(name, ps[|ps| - 1])]
  }

  /** The five opening lines of a graph. */
  function Preamble(e: Entity): seq<string> {
    [Header(e.name), GraphAttributes, NodeAttributes, Compound, EntityNode(e)]
  }

  /** The lines of the graph of `e`, before they are joined. */
  function GraphLines(e: Entity): (r: seq<string>)
    ensures |r| == 6 + 2 * (|e.inputs| + |e.outputs|)
  {
    Preamble(e) + InputLines(e.inputs, e.name) + OutputLines(e.outputs, e.name) + [Footer]
  }

  class DotGraph {
    const entity: Entity

    constructor(entity: Entity)
      ensures this.entity == entity
    {
      this.entity := entity;
    }

    /** The graph as text: its lines joined by newlines. */
    method Render() returns (text: string)
      ensures text == JoinLines(GraphLines(entity))
    {
      var result := [Header(entity.name)];
      result := result + [GraphAttributes];
      result := result + [NodeAttributes];
      result := result + [Compound];
      result := result + [EntityNode(entity)];
      PreambleBuilt(entity);
      for k := 0 to |entity.inputs|
        invariant result == Preamble(entity) + InputLines(entity.inputs[..k], entity.name)
      {
        var p := entity.inputs[k];
        result := result + [PortNode(p)];
        result := result + [InEdge(p, entity.name)];
        InputStep(Preamble(entity), entity.inputs, k, entity.name);
      }
      assert entity.inputs[..|entity.inputs|] == entity.inputs;
      ghost var withInputs := result;
      assert withInputs == Preamble(entity) + InputLines(entity.inputs, entity.name);
      for k := 0 to |entity.outputs|
        invariant result == withInputs + OutputLines(entity.outputs[..k], entity.name)
      {
        var p := entity.outputs[k];
        result := result + [PortNode(p)];
        result := result + [OutEdge(entity.name, p)];
        OutputStep(withInputs, entity.outputs, k, entity.name);
      }
      result := result + [Footer];
      GraphBuilt(entity, withInputs);
      text := JoinLines(result);
    }
  }

  lemma InputLinesSnoc(ps: seq<Port>, k: nat, name: string)
    requires k < |ps|
    ensures InputLines(ps[..k + 1], name) == InputLines(ps[..k], name) + [PortNode(ps[k]), InEdge(ps[k], name)]
  {
    assert ps[..k + 1][..k] == ps[..k];
  }

  lemma OutputLinesSnoc(ps: seq<Port>, k: nat, name: string)
    requires k < |ps|
    ensures OutputLines(ps[..k + 1], name) == OutputLines(ps[..k], name) + [PortNode(ps[k]), OutEdge(name, ps[k])]
  {
    assert ps[..k + 1][..k] == ps[..k];
  }

  /** The five opening appends give the preamble. */
  lemma PreambleBuilt(e: Entity)
    ensures [Header(e.name)] + [GraphAttributes] + [NodeAttributes] + [Compound] + [EntityNode(e)] == Preamble(e)
  {
  }

  /** The two loops and the closing brace give the graph's lines. */
  lemma GraphBuilt(e: Entity, withInputs: seq<string>)
    requires withInputs == Preamble(e) + InputLines(e.inputs, e.name)
    ensures withInputs + OutputLines(e.outputs[..|e.outputs|], e.name) + [Footer] == GraphLines(e)
  {
    assert e.outputs[..|e.outputs|] == e.outputs;
  }

  /** One pass of the loop over the inputs appends the next two lines. */
  lemma InputStep(pre: seq<string>, ps: seq<Port>, k: nat, name: string)
    requires k < |ps|
    ensures pre + InputLines(ps[..k], name) + [PortNode(ps[k])] + [InEdge(ps[k], name)]
            == pre + InputLines(ps[..k + 1], name)
  {
    InputLinesSnoc(ps, k, name);
  }

  /** One pass of the loop over the outputs appends the next two lines. */
  lemma OutputStep(pre: seq<string>, ps: seq<Port>, k: nat, name: string)
    requires k < |ps|
    ensures pre + OutputLines(ps[..k], name) + [PortNode(ps[k])] + [OutEdge(name, ps[k])]
            == pre + OutputLines(ps[..k + 1], name)
  {
    OutputLinesSnoc(ps, k, name);
  }

  /** Two lines per input: the k-th input's node line, then its edge into
      the entity. */
  lemma {:induction false} InputLinesAt(ps: seq<Port>, name: string)
    ensures forall k :: 0 <= k < |ps| ==>
      InputLines(ps, name)[2 * k] == PortNode(ps[k]) && InputLines(ps, name)[2 * k + 1] == InEdge(ps[k], name)
    decreases |ps|
  {
    if |ps| > 0 {
      var init := ps[..|ps| - 1];
      InputLinesAt(init, name);
      forall k | 0 <= k < |init| ensures init[k] == ps[k] { }
    }
  }

  /** Two lines per output: the k-th output's node line, then its edge out
      of the entity. */
  lemma {:induction false} OutputLinesAt(ps: seq<Port>, name: string)
    ensures forall k :: 0 <= k < |ps| ==>
      OutputLines(ps, name)[2 * k] == PortNode(ps[k]) && OutputLines(ps, name)[2 * k + 1] == OutEdge(name, ps[k])
    decreases |ps|
  {
    if |ps| > 0 {
      var init := ps[..|ps| - 1];
      OutputLinesAt(init, name);
      forall k | 0 <= k < |init| ensures init[k] == ps[k] { }
    }
  }

  /** The graph opens with its header, the three attribute lines and the
      entity box, closes with a brace, and has two lines per port between. */
  lemma GraphShape(e: Entity)
    ensures |GraphLines(e)| == 6 + 2 * (|e.inputs| + |e.outputs|)
    ensures GraphLines(e)[0] == "digraph " + e.name + " {"
    ensures GraphLines(e)[1] == GraphAttributes && GraphLines(e)[2] == NodeAttributes
    ensures GraphLines(e)[3] == Compound && GraphLines(e)[4] == EntityNode(e)
    ensures GraphLines(e)[|GraphLines(e)| - 1] == "}"
  {
  }

  /** The inputs come first, in order, each as a node line followed by an
      edge into the entity. */
  lemma GraphInputsAt(e: Entity, k: nat)
    requires k < |e.inputs|
    ensures GraphLines(e)[5 + 2 * k] == PortNode(e.inputs[k])
    ensures GraphLines(e)[6 + 2 * k] == InEdge(e.inputs[k], e.name)
  {
    InputLinesAt(e.inputs, e.name);
    var ins := InputLines(e.inputs, e.name);
    MiddleAt(Preamble(e), ins, OutputLines(e.outputs, e.name) + [Footer], 2 * k);
    MiddleAt(Preamble(e), ins, OutputLines(e.outputs, e.name) + [Footer], 2 * k + 1);
  }

  /** The outputs come after all inputs, in order, each as a node line
      followed by an edge out of the entity. */
  lemma GraphOutputsAt(e: Entity, k: nat)
    requires k < |e.outputs|
    ensures GraphLines(e)[5 + 2 * |e.inputs| + 2 * k] == PortNode(e.outputs[k])
    ensures GraphLines(e)[6 + 2 * |e.inputs| + 2 * k] == OutEdge(e.name, e.outputs[k])
  {
    OutputLinesAt(e.outputs, e.name);
    var front := Preamble(e) + InputLines(e.inputs, e.name);
    var outs := OutputLines(e.outputs, e.name);
    MiddleAt(front, outs, [Footer], 2 * k);
    MiddleAt(front, outs, [Footer], 2 * k + 1);
  }

  /** Indexing into the middle part of a three-part sequence. */
  lemma MiddleAt(pre: seq<string>, mid: seq<string>, post: seq<string>, j: nat)
    requires j < |mid|
    ensures (pre + mid + post)[|pre| + j] == mid[j]
    ensures pre + mid + post == (pre + mid) + post
  {
  }

  /** An entity without ports is drawn as a box of height -1 and nothing
      else. */
  lemma PortlessGraph(name: string)
    ensures GraphLines(Entity(name, [], [])) == [
      "digraph " + name + " {", GraphAttributes, NodeAttributes, Compound,
      "    " + name + " [ label=\"" + name + "\", height=" + "-1" + ", width=2, fontsize=20 ];",
      "}"]
  {
    var e := Entity(name, [], []);
    assert Height(e) == -1;
    assert IntToString(-1) == "-1";
    assert InputLines(e.inputs, name) == [] && OutputLines(e.outputs, name) == [];
  }

  /** A written integer holds no newline. */
  lemma IntToStringNoNewline(i: int)
    ensures NoNewline(IntToString(i))
  {
    IntToStringDenotes(i);
    var s := IntToString(i);
    var digits := if i < 0 then s[1..] else s;
    forall j | 0 <= j < |s| ensures s[j] != '\n' {
      if i < 0 && j > 0 {
        assert s[j] == digits[j - 1];
      }
    }
  }

  /** Names that may appear on one line of the graph. */
  predicate OneLineNames(e: Entity) {
    NoNewline(e.name)
    && (forall k :: 0 <= k < |e.inputs| ==> NoNewline(e.inputs[k].name))
    && (forall k :: 0 <= k < |e.outputs| ==> NoNewline(e.outputs[k].name))
  }

  lemma OneLineAppend(a: seq<string>, b: seq<string>)
    requires AllOneLine(a) && AllOneLine(b)
    ensures AllOneLine(a + b)
  {
    forall k | 0 <= k < |a + b| ensures NoNewline((a + b)[k]) {
      if k < |a| {
        assert (a + b)[k] == a[k];
      } else {
        assert (a + b)[k] == b[k - |a|];
      }
    }
  }

  lemma {:induction false} InputLinesOneLine(ps: seq<Port>, name: string)
    requires NoNewline(name) && forall k :: 0 <= k < |ps| ==> NoNewline(ps[k].name)
    ensures AllOneLine(InputLines(ps, name))
    decreases |ps|
  {
    if |ps| > 0 {
      var init := ps[..|ps| - 1];
      assert forall k :: 0 <= k < |init| ==> init[k] == ps[k];
      InputLinesOneLine(init, name);
      var p := ps[|ps| - 1];
      assert AllOneLine([PortNode(p), InEdge(p, name)]);
      OneLineAppend(InputLines(init, name), [PortNode(p), InEdge(p, name)]);
    }
  }

  lemma {:induction false} OutputLinesOneLine(ps: seq<Port>, name: string)
    requires NoNewline(name) && forall k :: 0 <= k < |ps| ==> NoNewline(ps[k].name)
    ensures AllOneLine(OutputLines(ps, name))
    decreases |ps|
  {
    if |ps| > 0 {
      var init := ps[..|ps| - 1];
      assert forall k :: 0 <= k < |init| ==> init[k] == ps[k];
      OutputLinesOneLine(init, name);
      var p := ps[|ps| - 1];
      assert AllOneLine([PortNode(p), OutEdge(name, p)]);
      OneLineAppend(OutputLines(init, name), [PortNode(p), OutEdge(name, p)]);
    }
  }

  lemma HeaderOneLine(name: string)
    requires NoNewline(name)
    ensures NoNewline(Header(name))
  {
  }

  lemma GraphAttributesOneLine()
    ensures NoNewline(GraphAttributes)
  {
  }

  lemma NodeAttributesOneLine()
    ensures NoNewline(NodeAttributes)
  {
  }

  lemma CompoundOneLine()
    ensures NoNewline(Compound)
  {
  }

  lemma PreambleOneLine(e: Entity)
    requires NoNewline(e.name)
    ensures AllOneLine(Preamble(e))
  {
    HeaderOneLine(e.name);
    GraphAttributesOneLine();
    NodeAttributesOneLine();
    CompoundOneLine();
    assert NoNewline(EntityNode(e));
  }

  lemma GraphLinesOneLine(e: Entity)
    requires OneLineNames(e)
    ensures AllOneLine(GraphLines(e))
  {
    PreambleOneLine(e);
    InputLinesOneLine(e.inputs, e.name);
    OutputLinesOneLine(e.outputs, e.name);
    OneLineAppend(Preamble(e), InputLines(e.inputs, e.name));
    OneLineAppend(Preamble(e) + InputLines(e.inputs, e.name), OutputLines(e.outputs, e.name));
    OneLineAppend(Preamble(e) + InputLines(e.inputs, e.name) + OutputLines(e.outputs, e.name), [Footer]);
  }

  /** When no name holds a newline, cutting the rendered text at newlines
      gives back exactly the graph's lines. */
  lemma RenderedLines(e: Entity)
    requires OneLineNames(e)
    ensures SplitLines(JoinLines(GraphLines(e))) == GraphLines(e)
  {
    GraphLinesOneLine(e);
    GraphShape(e);
    SplitJoin(GraphLines(e));
  }
}
