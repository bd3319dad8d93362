/** Records written in the form the three patterns recognise, and the proof
    that scanning such a trace recovers exactly the entity and the ports it
    declares, each port under the direction of its mode record. */
module Records {
  import opened Wrappers
  import opened Text
  import opened Patterns
  import opened Entities
  import opened Extraction

  /** A name that can stand between the quotes of a record. */
  predicate Plain(name: string) {
    NoNewline(name) && '\'' !in name
  }

  function EntityRecord(name: string): string {
    EntityKey + " " + "'" + name + "'"
  }

  function SignalRecord(name: string): string {
    SignalKey + " " + "'" + name + "'"
  }

  function Token(d: Direction): string {
    match d
    case In => "in"
    case Out => "out"
  }

  /** A mode record carrying an arbitrary direction token. */
  function ModeLine(token: string): string {
    "  " + ModeKey + " " + token
  }

  function ModeRecord(d: Direction): string {
    ModeLine(Token(d))
  }

  lemma EntityRecordRecognised(name: string)
    requires Plain(name)
    ensures EntityName(EntityRecord(name)) == Some(name)
  {
    var pre := EntityKey + " ";
    assert NoNewline(pre);
    QuotedCaptureOfRecord(EntityRecord(name), EntityKey, pre, name);
    FindAt(pre, EntityKey, 0);
  }

  /** The key of a signal record does not hold the entity key: it has no 'y'. */
  lemma SignalKeyLacksEntityKey()
    ensures Find(SignalKey + " ", EntityKey).None?
  {
    assert EntityKey[5] == 'y';
    assert 'y' !in SignalKey + " ";
    NotFoundByChar(SignalKey + " ", EntityKey, 5);
  }

  lemma SignalRecordNotEntity(name: string)
    requires Plain(name)
    ensures EntityName(SignalRecord(name)).None?
  {
    var pre := SignalKey + " ";
    assert NoNewline(pre);
    SignalKeyLacksEntityKey();
    QuotedCaptureOfRecord(SignalRecord(name), EntityKey, pre, name);
  }

  lemma SignalRecordNamed(name: string)
    requires Plain(name)
    ensures SignalName(SignalRecord(name)) == Some(name)
  {
    var pre := SignalKey + " ";
    assert NoNewline(pre);
    FindAt(pre, SignalKey, 0);
    QuotedCaptureOfRecord(SignalRecord(name), SignalKey, pre, name);
  }

  lemma SignalRecordRecognised(name: string)
    requires Plain(name)
    ensures EntityName(SignalRecord(name)).None?
    ensures SignalName(SignalRecord(name)) == Some(name)
  {
    SignalRecordNotEntity(name);
    SignalRecordNamed(name);
  }

  lemma ModeLinePlain(token: string)
    requires Plain(token)
    ensures Plain(ModeLine(token))
  {
  }

  /** A mode record hands back its whole token, whatever it is. */
  lemma ModeLineRecognised(token: string)
    requires Plain(token) && (|token| > 0 ==> !IsSpace(token[0]))
    ensures IsModeRecord(ModeLine(token)) && ModeToken(ModeLine(token)) == Some(token)
  {
    var line := ModeLine(token);
    ModeLinePlain(token);
    SegmentWhole(line);
    assert ModeForm(line, "  ", " ", token, "");
    assert token + "" == token;
    ModeCaptureGreedy(line, "  ", " ", token, "");
  }

  lemma ModeRecordRecognised(d: Direction)
    ensures IsModeRecord(ModeRecord(d)) && ModeToken(ModeRecord(d)) == Some(Token(d))
    ensures DirectionOf(Token(d)) == Some(d)
  {
    ModeLineRecognised(Token(d));
  }

  /** The records that declare each port in turn: its signal record, then
      the mode record of its direction. */
  function DeclRecords(decls: seq<(Port, Direction)>): seq<string> {
    if |decls| == 0 then []
    else
      var (p, d) := decls[|decls| - 1];
      DeclRecords(decls[..|decls| - 1]) + [SignalRecord(p.name), ModeRecord(d)]
  }

  /** The ports declared with direction `d`, in declaration order. */
  function Declared(decls: seq<(Port, Direction)>, d: Direction): seq<Port> {
    if |decls| == 0 then []
    else
      var (p, d') := decls[|decls| - 1];
      Declared(decls[..|decls| - 1], d) + (if d' == d then [p] else [])
  }

  function LastPort(decls: seq<(Port, Direction)>): Option<Port> {
    if |decls| == 0 then None else Some(decls[|decls| - 1].0)
  }

  predicate PlainDecls(decls: seq<(Port, Direction)>) {
    forall k :: 0 <= k < |decls| ==> Plain(decls[k].0.name)
  }

  /** Scanning two lines is two steps. */
  lemma RunTwo(st: State, a: string, b: string)
    ensures Run(st, [a, b]) == match Step(st, a)
      case Ok(s) => Step(s, b)
      case Err(e) => Err(e)
  {
    assert [a, b][..1] == [a];
    assert [a][..0] == [];
    RunLast(st, [a]);
    RunLast(st, [a, b]);
  }

  /** One declaration more: its signal record makes the port pending and its
      mode record appends it to its direction's list. */
  lemma DeclStep(st: State, p: Port, d: Direction)
    requires st.entity.Some? && Plain(p.name)
    ensures Run(st, [SignalRecord(p.name), ModeRecord(d)]) == Ok(State(Some(Attach(st.entity.value, d, p)), Some(p)))
  {
    SignalRecordRecognised(p.name);
    ModeRecordRecognised(d);
    RunTwo(st, SignalRecord(p.name), ModeRecord(d));
    SignalRecordReplacesPort(st, SignalRecord(p.name));
    var s := State(st.entity, Some(p));
    ModeRecordAppends(s, ModeRecord(d), d);
    var e := Step(s, ModeRecord(d)).value.entity.value;
    var a := Attach(st.entity.value, d, p);
    assert e.inputs == a.inputs && e.outputs == a.outputs;
  }

  lemma PlainSplit(decls: seq<(Port, Direction)>)
    requires |decls| > 0 && PlainDecls(decls)
    ensures PlainDecls(decls[..|decls| - 1]) && Plain(decls[|decls| - 1].0.name)
  {
    var init := decls[..|decls| - 1];
    forall k | 0 <= k < |init| ensures Plain(init[k].0.name) {
      assert init[k] == decls[k];
    }
  }

  /** The records of all declarations are those of all but the last, then
      the last one's two records. */
  lemma TraceSnoc(name: string, decls: seq<(Port, Direction)>)
    requires |decls| > 0
    ensures [EntityRecord(name)] + DeclRecords(decls)
      == ([EntityRecord(name)] + DeclRecords(decls[..|decls| - 1]))
         + [SignalRecord(decls[|decls| - 1].0.name), ModeRecord(decls[|decls| - 1].1)]
  {
  }

  /** Attaching the next declared port to the entity of the earlier
      declarations gives the entity of all of them. */
  lemma AttachDeclared(u: string, decls: seq<(Port, Direction)>)
    requires |decls| > 0
    ensures var init, last := decls[..|decls| - 1], decls[|decls| - 1];
      Attach(Entity(u, Declared(init, In), Declared(init, Out)), last.1, last.0)
      == Entity(u, Declared(decls, In), Declared(decls, Out))
  {
    var init, last := decls[..|decls| - 1], decls[|decls| - 1];
    var e0 := Entity(u, Declared(init, In), Declared(init, Out));
    var e := Attach(e0, last.1, last.0);
    assert e.PortsOf(last.1) == e0.PortsOf(last.1) + [last.0];
    assert e.PortsOf(last.1.Other()) == e0.PortsOf(last.1.Other());
  }

  /** An entity record followed by declarations yields exactly the declared
      ports, each under its direction and in declaration order, with the
      last declared port left pending. */
  lemma {:induction false} DeclarationsRecovered(name: string, decls: seq<(Port, Direction)>)
    requires Plain(name) && PlainDecls(decls)
    ensures Run(Initial, [EntityRecord(name)] + DeclRecords(decls))
      == Ok(State(Some(Entity(ToUpper(name), Declared(decls, In), Declared(decls, Out))), LastPort(decls)))
    decreases |decls|
  {
    if |decls| == 0 {
      EntityRecordRecognised(name);
      assert [EntityRecord(name)] + DeclRecords(decls) == [EntityRecord(name)];
      RunLast(Initial, [EntityRecord(name)]);
      EntityRecordStartsFresh(Initial, EntityRecord(name));
    } else {
      var init, last := decls[..|decls| - 1], decls[|decls| - 1];
      PlainSplit(decls);
      DeclarationsRecovered(name, init);
      var prefix := [EntityRecord(name)] + DeclRecords(init);
      TraceSnoc(name, decls);
      RunAppend(Initial, prefix, [SignalRecord(last.0.name), ModeRecord(last.1)]);
      var st := Run(Initial, prefix).value;
      DeclStep(st, last.0, last.1);
      AttachDeclared(ToUpper(name), decls);
    }
  }

  /** Each port paired with the direction `d`. */
  function Tagged(ps: seq<Port>, d: Direction): (r: seq<(Port, Direction)>)
    ensures |r| == |ps|
    ensures forall k :: 0 <= k < |ps| ==> r[k] == (ps[k], d)
  {
    seq(|ps|, k requires 0 <= k < |ps| => (ps[k], d))
  }

  /** The declarations of an entity: its inputs, then its outputs. */
  function EntityDecls(e: Entity): seq<(Port, Direction)> {
    Tagged(e.inputs, In) + Tagged(e.outputs, Out)
  }

  /** The trace lines that declare `e`. */
  function EntityTrace(e: Entity): seq<string> {
    [EntityRecord(e.name)] + DeclRecords(EntityDecls(e))
  }

  predicate PlainEntity(e: Entity) {
    Plain(e.name) && IsUpperCase(e.name)
    && (forall k :: 0 <= k < |e.inputs| ==> Plain(e.inputs[k].name))
    && (forall k :: 0 <= k < |e.outputs| ==> Plain(e.outputs[k].name))
  }

  lemma {:induction false} DeclaredAppend(a: seq<(Port, Direction)>, b: seq<(Port, Direction)>, d: Direction)
    ensures Declared(a + b, d) == Declared(a, d) + Declared(b, d)
    decreases |b|
  {
    if |b| == 0 {
      assert a + b == a;
    } else {
      var b' := b[..|b| - 1];
      assert (a + b)[..|a + b| - 1] == a + b';
      assert (a + b)[|a + b| - 1] == b[|b| - 1];
      DeclaredAppend(a, b', d);
    }
  }

  lemma {:induction false} DeclaredTagged(ps: seq<Port>, d: Direction, d': Direction)
    ensures Declared(Tagged(ps, d), d') == if d == d' then ps else []
    decreases |ps|
  {
    if |ps| > 0 {
      var t := Tagged(ps, d);
      assert t[..|t| - 1] == Tagged(ps[..|ps| - 1], d);
      DeclaredTagged(ps[..|ps| - 1], d, d');
      assert ps[..|ps| - 1] + [ps[|ps| - 1]] == ps;
    }
  }

  lemma EntityDeclsPlain(e: Entity)
    requires PlainEntity(e)
    ensures PlainDecls(EntityDecls(e))
  {
    var a: seq<(Port, Direction)>, b: seq<(Port, Direction)> := Tagged(e.inputs, In), Tagged(e.outputs, Out);
    forall k | 0 <= k < |a + b| ensures Plain((a + b)[k].0.name) {
      if k < |a| {
        assert (a + b)[k] == a[k];
      } else {
        assert (a + b)[k] == b[k - |a|];
      }
    }
  }

  /** The trace of an entity with plain, upper-case names scans back to that
      very entity. */
  lemma EntityTraceRecovered(e: Entity)
    requires PlainEntity(e)
    ensures Extract(EntityTrace(e)) == Ok(Some(e))
  {
    var decls := EntityDecls(e);
    EntityDeclsPlain(e);
    DeclarationsRecovered(e.name, decls);
    var ins, outs := Declared(decls, In), Declared(decls, Out);
    DeclaredAppend(Tagged(e.inputs, In), Tagged(e.outputs, Out), In);
    DeclaredAppend(Tagged(e.inputs, In), Tagged(e.outputs, Out), Out);
    DeclaredTagged(e.inputs, In, In);
    DeclaredTagged(e.inputs, In, Out);
    DeclaredTagged(e.outputs, Out, In);
    DeclaredTagged(e.outputs, Out, Out);
    assert ins == e.inputs && outs == e.outputs;
    assert Entity(ToUpper(e.name), ins, outs) == e;
  }

  lemma SignalRecordOneLine(name: string)
    requires NoNewline(name)
    ensures NoNewline(SignalRecord(name))
  {
  }

  lemma ModeRecordOneLine(d: Direction)
    ensures NoNewline(ModeRecord(d))
  {
  }

  lemma {:induction false} DeclRecordsPlain(decls: seq<(Port, Direction)>)
    requires PlainDecls(decls)
    ensures forall k :: 0 <= k < |DeclRecords(decls)| ==> NoNewline(DeclRecords(decls)[k])
    decreases |decls|
  {
    if |decls| > 0 {
      var init := decls[..|decls| - 1];
      var (p, d) := decls[|decls| - 1];
      assert PlainDecls(init) by {
        forall k | 0 <= k < |init| ensures Plain(init[k].0.name) {
          assert init[k] == decls[k];
        }
      }
      assert Plain(p.name) by {
        assert decls[|decls| - 1].0 == p;
      }
      DeclRecordsPlain(init);
      SignalRecordOneLine(p.name);
      ModeRecordOneLine(d);
      var rs := DeclRecords(decls);
      forall k | 0 <= k < |rs| ensures NoNewline(rs[k]) {
        if k < |DeclRecords(init)| {
          assert rs[k] == DeclRecords(init)[k];
        } else if k == |DeclRecords(init)| {
          assert rs[k] == SignalRecord(p.name);
        } else {
          assert rs[k] == ModeRecord(d);
        }
      }
    }
  }

  /** The same holds for the trace as one text: cutting the joined records at
      newlines gives them back, so the line loop recovers the entity. */
  lemma TraceTextRecovered(e: Entity)
    requires PlainEntity(e)
    ensures Extract(SplitLines(JoinLines(EntityTrace(e)))) == Ok(Some(e))
  {
    var decls := EntityDecls(e);
    EntityDeclsPlain(e);
    DeclRecordsPlain(decls);
    var t := EntityTrace(e);
    forall k | 0 <= k < |t| ensures NoNewline(t[k]) {
      if k > 0 {
        assert t[k] == DeclRecords(decls)[k - 1];
      }
    }
    SplitJoin(t);
    EntityTraceRecovered(e);
  }

  /** A direction token that is neither "in" nor "out", after a port has been
      declared inside an entity, makes the scan fail with that token. */
  lemma UnknownDirectionFails(name: string, port: string, token: string)
    requires Plain(name) && Plain(port) && Plain(token) && (|token| > 0 ==> !IsSpace(token[0]))
    requires token != "in" && token != "out"
    ensures Extract([EntityRecord(name), SignalRecord(port), ModeLine(token)]) == Err(KeyError(token))
  {
    var lines := [EntityRecord(name), SignalRecord(port), ModeLine(token)];
    EntityThenSignal(name, port);
    assert lines[..2] == [EntityRecord(name), SignalRecord(port)];
    RunLast(Initial, lines);
    ModeLineRecognised(token);
    StepFailsExactly(State(Some(Entity(ToUpper(name), [], [])), Some(Port(port))), ModeLine(token));
  }

  /** An entity record, then a signal record: a fresh entity and that port
      pending. */
  lemma EntityThenSignal(name: string, port: string)
    requires Plain(name) && Plain(port)
    ensures Run(Initial, [EntityRecord(name), SignalRecord(port)])
      == Ok(State(Some(Entity(ToUpper(name), [], [])), Some(Port(port))))
  {
    var lines := [EntityRecord(name), SignalRecord(port)];
    assert lines[..1] == [EntityRecord(name)];
    RunLast(Initial, lines);
    RunLast(Initial, lines[..1]);
    EntityRecordRecognised(name);
    EntityRecordStartsFresh(Initial, EntityRecord(name));
    SignalRecordRecognised(port);
    SignalRecordReplacesPort(State(Some(Entity(ToUpper(name), [], [])), None), SignalRecord(port));
  }
}
