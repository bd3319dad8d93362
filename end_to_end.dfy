/** From the scan to the picture: every entity the scan extracts has names
    that fit on one line, so its rendered graph splits back into exactly
    the lines it was built from. */
module EndToEnd {
  import opened Wrappers
  import opened Text
  import opened Patterns
  import opened Entities
  import opened Extraction
  import opened Dot

  /** No name the loop carries, in the entity or in the pending port, holds
      a newline. */
  predicate OneLineState(st: State) {
    (st.port.Some? ==> NoNewline(st.port.value.name))
    && (st.entity.Some? ==> OneLineNames(st.entity.value))
  }

  /** Upper-casing never makes a newline. */
  lemma ToUpperOneLine(s: string)
    requires NoNewline(s)
    ensures NoNewline(ToUpper(s))
  {
    var u := ToUpper(s);
    forall i | 0 <= i < |u| ensures u[i] != '\n' {
      assert u[i] == UpperChar(s[i]) && s[i] != '\n';
    }
  }

  lemma NewEntityOneLine(name: string)
    requires NoNewline(name)
    ensures OneLineNames(NewEntity(name))
  {
    ToUpperOneLine(name);
    assert NewEntity(name).name == ToUpper(name);
  }

  lemma AttachOneLine(e: Entity, d: Direction, p: Port)
    requires OneLineNames(e) && NoNewline(p.name)
    ensures OneLineNames(Attach(e, d, p))
  {
    var r := Attach(e, d, p);
    match d
    case In =>
      forall k | 0 <= k < |r.inputs| ensures NoNewline(r.inputs[k].name) {
        if k < |e.inputs| { assert r.inputs[k] == e.inputs[k]; }
      }
    case Out =>
      forall k | 0 <= k < |r.outputs| ensures NoNewline(r.outputs[k].name) {
        if k < |e.outputs| { assert r.outputs[k] == e.outputs[k]; }
      }
  }

  /** One pass of the loop body keeps every carried name on one line: the
      captured names hold no newline, and neither upper-casing nor
      appending a port brings one in. */
  lemma StepOneLine(st: State, line: string)
    requires OneLineState(st) && Step(st, line).Ok?
    ensures OneLineState(Step(st, line).value)
  {
    match EntityName(line)
    case Some(name) => NewEntityOneLine(name);
    case None =>
      match SignalName(line)
      case Some(name) =>
      case None =>
        match ModeToken(line)
        case Some(token) =>
          if st.port.Some? && st.entity.Some? {
            match DirectionOf(token)
            case Some(d) => AttachOneLine(st.entity.value, d, st.port.value);
            case None =>
          }
        case None =>
  }

  lemma {:induction false} RunOneLine(st: State, lines: seq<string>)
    requires OneLineState(st)
    ensures Run(st, lines).Ok? ==> OneLineState(Run(st, lines).value)
    decreases |lines|
  {
    if |lines| > 0 {
      var init := lines[..|lines| - 1];
      RunOneLine(st, init);
      RunLast(st, lines);
      ResultStepOneLine(Run(st, init), lines[|lines| - 1]);
    }
  }

  /** The loop's next pass, after a prefix that failed or kept every name
      on one line. */
  lemma ResultStepOneLine(prev: Result<State, Error>, line: string)
    requires prev.Ok? ==> OneLineState(prev.value)
    ensures var r := match prev case Ok(s) => Step(s, line) case Err(e) => Err(e);
            r.Ok? ==> OneLineState(r.value)
  {
    if prev.Ok? && Step(prev.value, line).Ok? {
      StepOneLine(prev.value, line);
    }
  }

  /** Whatever entity the scan returns can be rendered, and the rendered
      text splits back into exactly the graph's lines. */
  lemma ExtractedRendersLineByLine(lines: seq<string>, e: Entity)
    requires Extract(lines) == Ok(Some(e))
    ensures OneLineNames(e)
    ensures SplitLines(JoinLines(GraphLines(e))) == GraphLines(e)
  {
    RunOneLine(Initial, lines);
    RenderedLines(e);
  }
}
