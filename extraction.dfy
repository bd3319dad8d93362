/** Entity extraction: the line-scanning loop of `parse_entities_from_vhdl`
    (doc/vhdl_to_dot.py:42-61), run on the analyser's output once it has
    been produced and filtered. */
module Extraction {
  import opened Wrappers
  import opened Text
  import opened Patterns
  import opened Entities

  /** The two variables the loop carries from line to line: the current
      entity and the pending port. */
  datatype State = State(entity: Option<Entity>, port: Option<Port>)

  const Initial: State := State(None, None)

  /** The exception the loop can raise: `ports[token]` for a token that is
      neither 'in' nor 'out'. */
  datatype Error = KeyError(key: string)

  /** The current entity, if any, has an upper-case name. */
  predicate UpperNamed(st: State) {
    st.entity.Some? ==> IsUpperCase(st.entity.value.name)
  }

  /** One pass of the loop body: the entity pattern first, then the signal
      pattern, then the mode pattern. Only a signal record changes the
      pending port; names stay upper-case; an error carries the mode token,
      which is neither dictionary key. */
  function Step(st: State, line: string): (r: Result<State, Error>)
    ensures r.Ok? && r.value.port != st.port ==> EntityName(line).None? && SignalName(line).Some?
    ensures r.Ok? && UpperNamed(st) ==> UpperNamed(r.value)
    ensures r.Err? ==> ModeToken(line) == Some(r.error.key) && r.error.key != "in" && r.error.key != "out"
  {
    match EntityName(line)
    case Some(name) => Ok(st.(entity := Some(NewEntity(name))))
    case None =>
      match SignalName(line)
      case Some(name) => Ok(st.(port := Some(Port(name))))
      case None =>
        match ModeToken(line)
        case Some(token) =>
          if st.port.Some? && st.entity.Some? then
            match DirectionOf(token)
            case Some(d) => Ok(st.(entity := Some(Attach(st.entity.value, d, st.port.value))))
            case None => Err(KeyError(token))
          else Ok(st)
        case None => Ok(st)
  }

  /** The loop over `lines` from state `st`; the first exception ends it.
      Names stay upper-case, and an error carries a token that is neither
      dictionary key. */
  function Run(st: State, lines: seq<string>): (r: Result<State, Error>)
    ensures r.Ok? && UpperNamed(st) ==> UpperNamed(r.value)
    ensures r.Err? ==> r.error.key != "in" && r.error.key != "out"
    decreases |lines|
  {
    if |lines| == 0 then Ok(st)
    else
      match Run(st, lines[..|lines| - 1])
      case Err(e) => Err(e)
      case Ok(s) => Step(s, lines[|lines| - 1])
  }

  /** What the scan returns: the entity current after the last line. Its
      name is upper-case; an empty trace gives None. */
  function Extract(lines: seq<string>): (r: Result<Option<Entity>, Error>)
    ensures r.Ok? && r.value.Some? ==> IsUpperCase(r.value.value.name)
    ensures r.Err? ==> r.error.key != "in" && r.error.key != "out"
    ensures |lines| == 0 ==> r == Ok(None)
  {
    match Run(Initial, lines)
    case Ok(st) => Ok(st.entity)
    case Err(e) => Err(e)
  }

  /** `parse_entities_from_vhdl` once the analyser's output is at hand: split
      it into lines and scan them in order. */
  method ParseEntities(output: string) returns (r: Result<Option<Entity>, Error>)
    ensures r == Extract(SplitLines(output))
  {
    var lines := SplitLines(output);
    var entity: Option<Entity> := None;
    var port: Option<Port> := None;
    for i := 0 to |lines|
      invariant Run(Initial, lines[..i]) == Ok(State(entity, port))
    {
      var line := lines[i];
      RunSnoc(Initial, lines, i);
      var name := EntityName(line);
      if name.Some? {
        EntityRecordStartsFresh(State(entity, port), line);
        entity := Some(NewEntity(name.value));
        continue;
      }
      name := SignalName(line);
      if name.Some? {
        SignalRecordReplacesPort(State(entity, port), line);
        port := Some(Port(name.value));
        continue;
      }
      var token := ModeToken(line);
      StepMode(State(entity, port), line);
      if token.Some? && port.Some? && entity.Some? {
        var d := DirectionOf(token.value);
        if d.None? {
          RunKeepsError(Initial, lines, i + 1);
          return Err(KeyError(token.value));
        }
        entity := Some(Attach(entity.value, d.value, port.value));
      }
    }
    assert lines[..|lines|] == lines;
    r := Ok(entity);
  }

  /** The scan of one line more. */
  lemma RunSnoc(st: State, lines: seq<string>, i: nat)
    requires i < |lines|
    ensures Run(st, lines[..i + 1]) == match Run(st, lines[..i])
      case Ok(s) => Step(s, lines[i])
      case Err(e) => Err(e)
  {
    assert lines[..i + 1][..i] == lines[..i];
  }

  /** An entity-declaration record, whatever else the line matches,
      replaces the current entity by a fresh one: the capture upper-cased,
      no ports. The pending port is kept. */
  lemma EntityRecordStartsFresh(st: State, line: string)
    requires EntityName(line).Some?
    ensures Step(st, line) == Ok(State(Some(Entity(ToUpper(EntityName(line).value), [], [])), st.port))
  {
  }

  /** An interface-signal-declaration record that is not an entity record
      replaces the pending port and leaves the entity alone. */
  lemma SignalRecordReplacesPort(st: State, line: string)
    requires EntityName(line).None? && SignalName(line).Some?
    ensures Step(st, line) == Ok(State(st.entity, Some(Port(SignalName(line).value))))
  {
  }

  /** How the mode pattern decides a line the first two patterns rejected. */
  lemma StepMode(st: State, line: string)
    requires EntityName(line).None? && SignalName(line).None?
    ensures Step(st, line) == match ModeToken(line)
      case Some(token) =>
        if st.port.Some? && st.entity.Some? then
          match DirectionOf(token)
          case Some(d) => Ok(st.(entity := Some(Attach(st.entity.value, d, st.port.value))))
          case None => Err(KeyError(token))
        else Ok(st)
      case None => Ok(st)
  {
  }

  /** Scanning two stretches of lines one after the other is scanning them
      joined; an exception in the first ends the scan. */
  lemma {:induction false} RunAppend(st: State, a: seq<string>, b: seq<string>)
    ensures Run(st, a + b) == match Run(st, a)
      case Ok(s) => Run(s, b)
      case Err(e) => Err(e)
    decreases |b|
  {
    if |b| == 0 {
      assert a + b == a;
    } else {
      assert (a + b)[..|a + b| - 1] == a + b[..|b| - 1];
      RunAppend(st, a, b[..|b| - 1]);
    }
  }

  /** An exception raised on a prefix is the outcome of the whole scan. */
  lemma RunKeepsError(st: State, lines: seq<string>, k: nat)
    requires k <= |lines| && Run(st, lines[..k]).Err?
    ensures Run(st, lines) == Run(st, lines[..k])
  {
    RunAppend(st, lines[..k], lines[k..]);
    assert lines[..k] + lines[k..] == lines;
  }

  /** A line that only the mode pattern recognises. */
  predicate IsModeRecord(line: string) {
    EntityName(line).None? && SignalName(line).None? && ModeToken(line).Some?
  }

  /** A line none of the three patterns recognises changes nothing. */
  lemma UnmatchedLineIgnored(st: State, line: string)
    requires EntityName(line).None? && SignalName(line).None? && ModeToken(line).None?
    ensures Step(st, line) == Ok(st)
  {
  }

  /** A mode record changes nothing unless there is both a pending port and
      a current entity; in particular a mode record before any signal record
      is ignored. */
  lemma OrphanModeRecordIgnored(st: State, line: string)
    requires IsModeRecord(line) && (st.port.None? || st.entity.None?)
    ensures Step(st, line) == Ok(st)
  {
  }

  /** A mode record naming a known direction appends the pending port, and
      only it, at the end of that direction's list; the name and the other
      list are unchanged, and the port stays pending. */
  lemma ModeRecordAppends(st: State, line: string, d: Direction)
    requires IsModeRecord(line) && st.port.Some? && st.entity.Some?
    requires DirectionOf(ModeToken(line).value) == Some(d)
    ensures Step(st, line).Ok?
    ensures var s := Step(st, line).value;
      && s.port == st.port && s.entity.Some?
      && s.entity.value.name == st.entity.value.name
      && s.entity.value.PortsOf(d) == st.entity.value.PortsOf(d) + [st.port.value]
      && s.entity.value.PortsOf(d.Other()) == st.entity.value.PortsOf(d.Other())
  {
  }

  /** The only failure: a mode record, with a port pending and an entity
      current, whose token is not exactly 'in' or 'out' is a missing key. */
  lemma StepFailsExactly(st: State, line: string)
    ensures Step(st, line).Err? <==>
      IsModeRecord(line) && st.port.Some? && st.entity.Some?
      && ModeToken(line).value != "in" && ModeToken(line).value != "out"
    ensures Step(st, line).Err? ==> Step(st, line).error == KeyError(ModeToken(line).value)
  {
  }

  /** The scan of a non-empty stretch is the scan of all but its last line,
      followed by one step. */
  lemma RunLast(st: State, lines: seq<string>)
    requires |lines| > 0
    ensures Run(st, lines) == match Run(st, lines[..|lines| - 1])
      case Ok(s) => Step(s, lines[|lines| - 1])
      case Err(e) => Err(e)
  {
  }

  lemma StepWithoutEntity(st: State, line: string)
    requires st.entity.None? && EntityName(line).None?
    ensures Step(st, line).Ok? && Step(st, line).value.entity.None?
  {
    if SignalName(line).Some? {
      SignalRecordReplacesPort(st, line);
    } else {
      StepMode(st, line);
    }
  }

  /** Without an entity-declaration record there is never an entity, so
      nothing is ever attached and the scan cannot fail. */
  lemma {:induction false} NoEntityRecordKeepsNone(st: State, lines: seq<string>)
    requires st.entity.None?
    requires forall k :: 0 <= k < |lines| ==> EntityName(lines[k]).None?
    ensures Run(st, lines).Ok? && Run(st, lines).value.entity.None?
    decreases |lines|
  {
    if |lines| > 0 {
      var init := lines[..|lines| - 1];
      assert forall k :: 0 <= k < |init| ==> init[k] == lines[k];
      NoEntityRecordKeepsNone(st, init);
      RunLast(st, lines);
      StepWithoutEntity(Run(st, init).value, lines[|lines| - 1]);
    }
  }

  /** With no entity-declaration record at all, the result is none. */
  lemma NoEntityRecordNoResult(lines: seq<string>)
    requires forall k :: 0 <= k < |lines| ==> EntityName(lines[k]).None?
    ensures Extract(lines) == Ok(None)
  {
    NoEntityRecordKeepsNone(Initial, lines);
  }

  lemma StepKeepsEntity(st: State, line: string)
    requires st.entity.Some? && EntityName(line).None? && Step(st, line).Ok?
    ensures var e := Step(st, line).value.entity;
      && e.Some? && e.value.name == st.entity.value.name
      && st.entity.value.inputs <= e.value.inputs
      && st.entity.value.outputs <= e.value.outputs
  {
    if SignalName(line).Some? {
      SignalRecordReplacesPort(st, line);
    } else if ModeToken(line).Some? && st.port.Some? {
      var d := DirectionOf(ModeToken(line).value).value;
      ModeRecordAppends(st, line, d);
      var e := Step(st, line).value.entity.value;
      assert e.inputs == if d == In then st.entity.value.inputs + [st.port.value] else st.entity.value.inputs;
      assert e.outputs == if d == Out then st.entity.value.outputs + [st.port.value] else st.entity.value.outputs;
    }
  }

  /** Among lines with no entity-declaration record, the current entity
      keeps its name and only gains ports at the ends of its lists. */
  lemma {:induction false} EntityPersists(st: State, lines: seq<string>)
    requires st.entity.Some?
    requires forall k :: 0 <= k < |lines| ==> EntityName(lines[k]).None?
    requires Run(st, lines).Ok?
    ensures var e := Run(st, lines).value.entity;
      && e.Some? && e.value.name == st.entity.value.name
      && st.entity.value.inputs <= e.value.inputs
      && st.entity.value.outputs <= e.value.outputs
    decreases |lines|
  {
    if |lines| > 0 {
      var init := lines[..|lines| - 1];
      assert forall k :: 0 <= k < |init| ==> init[k] == lines[k];
      RunLast(st, lines);
      EntityPersists(st, init);
      StepKeepsEntity(Run(st, init).value, lines[|lines| - 1]);
    }
  }

  /** Only the last entity-declaration record counts. The scan continues from
      a fresh entity named by that record, so ports attached before it are
      discarded, and the result carries its upper-cased name. */
  lemma LastEntityWins(pre: seq<string>, line: string, post: seq<string>)
    requires EntityName(line).Some? && Run(Initial, pre).Ok?
    requires forall k :: 0 <= k < |post| ==> EntityName(post[k]).None?
    ensures Run(Initial, pre + [line] + post)
      == Run(State(Some(NewEntity(EntityName(line).value)), Run(Initial, pre).value.port), post)
    ensures Extract(pre + [line] + post).Ok? ==>
      var e := Extract(pre + [line] + post).value;
      e.Some? && e.value.name == ToUpper(EntityName(line).value)
  {
    var s := Run(Initial, pre).value;
    RunAppend(Initial, pre + [line], post);
    RunAppend(Initial, pre, [line]);
    assert [line][..0] == [];
    EntityRecordStartsFresh(s, line);
    var started := State(Some(NewEntity(EntityName(line).value)), s.port);
    if Run(started, post).Ok? {
      EntityPersists(started, post);
    }
  }

  /** `e'` is `e` with `n` more copies of port `p`, each appended to one of
      the two lists. */
  predicate ExtendedBy(e: Entity, e': Entity, p: Port, n: nat) {
    && e'.name == e.name
    && e.inputs <= e'.inputs && e.outputs <= e'.outputs
    && |e'.inputs| + |e'.outputs| == |e.inputs| + |e.outputs| + n
    && (forall k :: |e.inputs| <= k < |e'.inputs| ==> e'.inputs[k] == p)
    && (forall k :: |e.outputs| <= k < |e'.outputs| ==> e'.outputs[k] == p)
  }

  lemma ExtendedByAttach(e: Entity, mid: Entity, p: Port, n: nat, d: Direction)
    requires ExtendedBy(e, mid, p, n)
    ensures ExtendedBy(e, Attach(mid, d, p), p, n + 1)
  {
    var e' := Attach(mid, d, p);
    assert e'.PortsOf(d) == mid.PortsOf(d) + [p];
    assert e'.PortsOf(d.Other()) == mid.PortsOf(d.Other());
    assert e'.inputs == if d == In then mid.inputs + [p] else mid.inputs;
    assert e'.outputs == if d == Out then mid.outputs + [p] else mid.outputs;
  }

  /** Consecutive mode records reuse the pending port: each one attaches the
      same port again, possibly to both directions, and the port stays
      pending. */
  lemma {:induction false} ModeRecordsReusePort(st: State, modes: seq<string>)
    requires st.entity.Some? && st.port.Some?
    requires forall k :: 0 <= k < |modes| ==>
      IsModeRecord(modes[k]) && DirectionOf(ModeToken(modes[k]).value).Some?
    ensures Run(st, modes).Ok? && Run(st, modes).value.port == st.port
    ensures Run(st, modes).value.entity.Some?
    ensures ExtendedBy(st.entity.value, Run(st, modes).value.entity.value, st.port.value, |modes|)
    decreases |modes|
  {
    if |modes| > 0 {
      var init := modes[..|modes| - 1];
      assert forall k :: 0 <= k < |init| ==> init[k] == modes[k];
      ModeRecordsReusePort(st, init);
      var s := Run(st, init).value;
      var last := modes[|modes| - 1];
      var d := DirectionOf(ModeToken(last).value).value;
      RunLast(st, modes);
      ModeRecordAppends(s, last, d);
      ExtendedByAttach(st.entity.value, s.entity.value, st.port.value, |init|, d);
      assert Step(s, last).value.entity.value == Attach(s.entity.value, d, st.port.value) by {
        assert Step(s, last) == Ok(State(Some(Attach(s.entity.value, d, s.port.value)), s.port));
      }
    }
  }
}
