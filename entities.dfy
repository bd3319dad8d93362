/** The data model of doc/vhdl_to_dot.py: an entity (a hardware module's
    interface) and its ports. */
module Entities {
  import opened Wrappers
  import opened Text

  /** One named signal. The source copies a pending port into the entity;
      as a value, the copy is the port itself. */
  datatype Port = Port(name: string)

  /** The two keys of the source's `ports` dictionary, 'in' and 'out'. */
  datatype Direction = In | Out {
    /** The other key: together with this one it names both lists. */
    function Other(): (o: Direction)
      ensures o != this && {this, o} == {In, Out}
    {
      match this
      case In => Out
      case Out => In
    }
  }

  /** A module interface: its upper-cased name and the ports listed under
      'in' and under 'out', each list in the order the ports were added. */
  datatype Entity = Entity(name: string, inputs: seq<Port>, outputs: seq<Port>) {
    function PortsOf(d: Direction): seq<Port> {
      match d
      case In => inputs
      case Out => outputs
    }
  }

  /** `Entity(name)`: the name upper-cased and both port lists empty. */
  function NewEntity(name: string): (e: Entity)
    ensures |e.name| == |name| && forall i :: 0 <= i < |name| ==> e.name[i] == UpperChar(name[i])
    ensures IsUpperCase(e.name)
    ensures e.inputs == [] && e.outputs == []
  {
    ToUpperIdempotent(name);
    Entity(ToUpper(name), [], [])
  }

  /** The lookup `ports[token]`: only the exact keys 'in' and 'out' exist;
      any other token is a missing key. */
  function DirectionOf(token: string): (d: Option<Direction>)
    ensures d == Some(In) <==> token == "in"
    ensures d == Some(Out) <==> token == "out"
  {
    if token == "in" then Some(In) else if token == "out" then Some(Out) else None
  }

  /** `ports[d] += [port]`: the port goes at the end of the list for `d`;
      the name and the other list stay as they were. */
  function Attach(e: Entity, d: Direction, p: Port): (r: Entity)
    ensures r.name == e.name
    ensures r.PortsOf(d) == e.PortsOf(d) + [p]
    ensures r.PortsOf(d.Other()) == e.PortsOf(d.Other())
  {
    match d
    case In => e.(inputs := e.inputs + [p])
    case Out => e.(outputs := e.outputs + [p])
  }
}
